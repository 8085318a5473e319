# Vertical image combiner — a Dafny model

The program lists the JPEG files of an input directory and sorts them by the
number in their name: `img2.jpg` comes before `img10.jpg`. It cuts the sorted
list into groups of five. For each group it:

- loads the images;
- sizes a canvas as wide as the widest image and as tall as all the heights
  together;
- resizes every image to a width of 900 and draws it at x = 0, below the
  images before it;
- saves the canvas as `./output/combined_<n>.jpg`, with `n` counting groups
  from 1.

The model covers the plain logic of `Program.cs`. The modules follow the
program's parts:

- `Int32`: the unchecked 32-bit `int` of C#. `totalHeight += …` and
  `y += …` wrap around modulo 2^32.
- `DigitKey`: `ExtractNumber`. Its loop is a method, proved equal to the
  function `ExtractedNumber`, which is digit gathering followed by
  `int.Parse`. The two exceptions `int.Parse` can raise are the error values
  `NoDigits` (FormatException) and `Overflow` (OverflowException).
- `FileOrder`: `Path.GetFileNameWithoutExtension` (simplified),
  `CompareFileNamesNumerically`, and `Array.Sort` with that comparison.
  - The sort is `SortFiles`, a function whose contract is what `Array.Sort`
    promises. It fails exactly when there are two or more files and one of
    them has no key. On success the result is a permutation of the input
    with no file ordered after a later one.
  - An insertion sort (`KeySort`, generic in the key) witnesses that the
    contract is satisfiable.
  - The order of keys is proved unique, so any correct sort lists the keys
    the same way. Equal keys may come in any order.
- `Grouping`: the batching loop, with the group size as a parameter.
- `Composition`: the two loops over one group. The first takes
  `maxWidth`/`totalHeight` from the loaded sizes. The second sets each
  image's `y` offset from the resized heights.
- `Pipeline`: `Main` from the listed file names to the saved images. Each
  saved image is a `Combined` value holding its path, canvas size and draw
  calls.

Images are not decoded in the model. A function `load` gives each path's
width and height, and a function `resize` gives the height an image has
after resizing. Both are parameters.

The canvas is sized from the images as loaded (`Program.cs:49-50`), and the
resized images are drawn into it (`Program.cs:63-69`).
`Composition.CanvasUsesOriginalSize` states the consequence: a single
1800 x 1200 photo becomes a 900 x 600 image on an 1800 x 1200 canvas.

## Model

| member | source | states |
|---|---|---|
| Int32.Wrap | Program.cs:50 | the value an unchecked `int` holds for an exact result: in range and congruent to it modulo 2^32 |
| Int32.Add | Program.cs:69 | unchecked `+` on two `int`s: in range and congruent to the exact sum modulo 2^32 |
| Int32.WrapUnique | Program.cs:50 | range and congruence together determine the wrapped value |
| Int32.WrapInRange | Program.cs:50 | a result that fits is not changed by wrapping |
| Int32.AddWrapped | Program.cs:50 | adding to a wrapped running total gives the wrapped exact total, so the loop keeps one |
| DigitKey.DigitValue | Program.cs:104 | a digit character's value is below 10 |
| DigitKey.DigitChar | Program.cs:104 | the character for a value below 10 is a digit with that value |
| DigitKey.Digits | Program.cs:97-102 | the gathered characters are all digits and no more than the input |
| DigitKey.ParseInt32 | Program.cs:104 | `int.Parse` on the gathered digits: FormatException on none, OverflowException above `int.MaxValue`, else their value; no ensures of its own, `ExtractedNumberCases` and `ValueOfDecimal` state its outcomes |
| DigitKey.ExtractedNumber | Program.cs:94-105 | what `ExtractNumber` returns or raises; no ensures of its own, `ExtractedNumberCases`, `NonDigitIgnored` and `SpelledNumber` state its properties |
| DigitKey.ExtractNumber | Program.cs:94-105 | the loop appending every digit, followed by the parse, returns exactly `ExtractedNumber(s)`, error included |
| DigitKey.DigitsAppend | Program.cs:98-102 | gathering digits distributes over concatenation: the loop keeps digits across gaps |
| DigitKey.DigitsOfDigits | Program.cs:98-102 | a string of digits is gathered whole |
| DigitKey.DigitsEmpty | Program.cs:97-104 | nothing is gathered if and only if the name has no digit |
| DigitKey.ExtractedNumberCases | Program.cs:104 | FormatException iff no digit; OverflowException iff the digits exceed `int.MaxValue`; otherwise the value of the digits, between 0 and `int.MaxValue` |
| DigitKey.NonDigitIgnored | Program.cs:98-102 | inserting a non-digit anywhere in a name never changes its key |
| DigitKey.OnlyDigitsMatter | Program.cs:97-104 | the digit string alone gives the same key as the whole name |
| DigitKey.ToDecimal | Program.cs:74 | the decimal spelling of a number: non-empty digits, with a leading '0' only for 0 |
| DigitKey.ValueOfDecimal | Program.cs:104 | parsing the decimal spelling of `n` gives back `n` |
| DigitKey.DecimalInjective | Program.cs:74 | different numbers have different spellings |
| DigitKey.SpelledNumber | Program.cs:97-104 | a name whose only digits spell `n`, within range, has key `n` |
| DigitKey.LeadingZeroIgnored | Program.cs:104 | a leading zero does not change the parsed value ("img007" and "img7" share a key) |
| DigitKey.GatheredAcrossGaps | Program.cs:97-104 | letter, digit, letter, digit ("a1b2") gives the two-digit number (12) |
| DigitKey.DigitsAcrossGaps | Program.cs:98-102 | the digits of letter, digit, letter, digit are the two digits in order |
| DigitKey.ValueOfTwo | Program.cs:104 | two digits parse to ten times the first plus the second |
| FileOrder.FileName | Program.cs:87-88 | `Path.GetFileName`, '/' only; no ensures of its own, `FileNameAfterDirectory` states it |
| FileOrder.StripExtension | Program.cs:87-88 | a name up to its last '.'; no ensures of its own, `StripExtensionOf` states it |
| FileOrder.FileNameWithoutExtension | Program.cs:87-88 | the simplified `Path.GetFileNameWithoutExtension`; no ensures of its own, `StemOfPath` states it |
| FileOrder.FileKey | Program.cs:87-88 | the number the comparator extracts from one path, or the exception; no ensures of its own, `KeyOfSpelledName` and `StemOfPath` state it |
| FileOrder.CompareTo | Program.cs:90 | `int.CompareTo`: -1, 0 or 1, negative iff the first is smaller, 0 iff equal |
| FileOrder.CompareFileNamesNumerically | Program.cs:84-91 | the comparator, the first argument's key extracted first; no ensures of its own, `ComparatorSign`, `ComparatorAntisymmetric` and `ComparatorTransitive` state its properties |
| FileOrder.LastIndexOf | Program.cs:87-88 | the last position of a character, or -1; no later position holds it |
| FileOrder.LastIndexOfIs | Program.cs:87-88 | any position satisfying that characterization is the one returned |
| FileOrder.LastIndexOfSplit | Program.cs:87-88 | in `a + [c] + b` with no `c` in `b`, the last `c` is at the length of `a` |
| FileOrder.FileNameAfterDirectory | Program.cs:87-88 | after a directory ending in '/', the file name is what follows |
| FileOrder.StripExtensionOf | Program.cs:87-88 | removing the extension of `stem.ext` gives `stem` when `ext` has no '.' |
| FileOrder.StemOfPath | Program.cs:87-88 | the name without extension of `dir/stem.ext` is `stem`, so digits in the directory or the extension never reach the key |
| FileOrder.KeyOfSpelledName | Program.cs:87-88 | `dir/<prefix><n>.jpg`, with a digit-free prefix, has key `n` |
| FileOrder.KeyOfNumberedName | Program.cs:87-88 | `dir/img<n>.jpg` has key `n` |
| FileOrder.ComparatorSign | Program.cs:84-91 | the comparison fails iff a key fails, with the first argument's exception winning; otherwise its sign is the order of the two keys, and it is 0 exactly on equal keys |
| FileOrder.ComparatorAntisymmetric | Program.cs:84-91 | swapping the arguments negates the result |
| FileOrder.ComparatorTransitive | Program.cs:84-91 | "not after" is transitive |
| FileOrder.SortedMeansKeysNondecreasing | Program.cs:22 | with two or more files, sorted by the comparator iff every file has a key and the keys are nondecreasing |
| FileOrder.FirstKeyError | Program.cs:22 | no error iff every file has a key; a reported error is some file's |
| FileOrder.PermutationKeyed | Program.cs:22 | a permutation of files with keys has keys |
| FileOrder.SortFiles | Program.cs:21-22 | the sort throws iff there are two or more files and one has no key, with that file's exception; otherwise it returns a permutation of the same length, sorted by the comparator |
| FileOrder.SortedKeysUnique | Program.cs:22 | stability is not promised, but any two results of the sort list the same keys in the same order |
| FileOrder.SortKeyed | Program.cs:22 | files that all have keys sort successfully, to a permutation in nondecreasing key order |
| FileOrder.SortDistinct | Program.cs:22 | files with pairwise different keys have exactly one sorted order |
| FileOrder.NumberedName | Program.cs:87-88 | `img<n>.jpg` has key `n` |
| FileOrder.NumberedNamesSortByNumber | Program.cs:22 | `img<b>`, `img<c>`, `img<a>` with a < b < c sort to `img<a>`, `img<b>`, `img<c>`: numeric order, not lexicographic ("img10" after "img2") |
| FileOrder.SortRotated | Program.cs:22 | three files with increasing keys, listed second, third, first, sort to first, second, third |
| KeySort.Insert | Program.cs:22 | inserting into a key-sorted list keeps it sorted and adds exactly that element |
| KeySort.InsertionSort | Program.cs:22 | a key-sorted permutation of the input exists (the witness for the sort's contract) |
| KeySort.PermutedKeys | Program.cs:22 | permuting a list permutes its keys |
| KeySort.SortedIntsUnique | Program.cs:22 | two sorted permutations of the same integers are equal |
| KeySort.SortedKeysUnique | Program.cs:22 | two key-sorted permutations of the same elements have the same key sequence |
| KeySort.StrictlySortedUnique | Program.cs:22 | when the keys are pairwise different, the key-sorted permutation is unique |
| Grouping.CeilDiv | Program.cs:27 | `ceil(n / groupSize)`: the fewest groups of `groupSize` that hold `n` items |
| Grouping.ConcatAppend | Program.cs:34 | appending a group appends its items |
| Grouping.ChunkLength | Program.cs:30-33 | each group starts inside the list and holds 1..`groupSize` items, exactly `groupSize` for all but the last |
| Grouping.ChunkExtends | Program.cs:30-34 | group `i` continues exactly where the groups before it stop |
| Grouping.GroupFiles | Program.cs:25-35 | `ceil(n / groupSize)` groups; group `i` is items `[i*groupSize, min(i*groupSize+groupSize, n))`; sizes as in ChunkLength; the groups concatenate back to the input |
| Grouping.TwelveFilesInFives | Program.cs:26-35 | twelve files make groups of 5, 5 and 2 |
| Grouping.NoFilesNoGroups | Program.cs:27-28 | no files make no groups |
| Composition.MaxWidth | Program.cs:42-51 | the widest width is at least every width, 0 for none, and one of the widths otherwise |
| Composition.LoadedHeights | Program.cs:47-50 | the heights the first loop adds up; no ensures of its own, `MeasureGroup` and `CanvasOfGroup` use it |
| Composition.Offset | Program.cs:50-69 | the wrapped sum of the first `k` heights; no ensures of its own, `OffsetStep` and `StackTiles` state it |
| Composition.MeasureStep | Program.cs:49 | one round of the first loop on the width: `Math.Max` with this width |
| Composition.MeasureGroup | Program.cs:41-51 | `maxWidth` is the maximum loaded width (at least each, equal to one, 0 for none) and `totalHeight` the wrapped sum of the loaded heights |
| Composition.OffsetStep | Program.cs:50-69 | `totalHeight += image.Height` and `y += image.Height`: the next running total is the wrapped sum of the current one and this height |
| Composition.StackImages | Program.cs:57-69 | image `k` is drawn at x = 0 and y = the wrapped sum of the resized heights before it, at the target width and its resized height |
| Composition.SumPrefix | Program.cs:69 | a prefix sum of positive heights is at least its length and no more than the total less the rest |
| Composition.StackTiles | Program.cs:57-69 | when the resized heights fit in an `int`: the first image starts at 0 and each one starts where the previous one ends, within the total |
| Composition.CanvasOfGroup | Program.cs:50-55 | when the loaded heights fit in an `int`, the canvas height is exactly their sum |
| Composition.TotalHeightPositive | Program.cs:50 | the height sum is at least the number of images |
| Composition.CanvasUsesOriginalSize | Program.cs:49-69 | the canvas is sized from the loaded images while the resized ones are drawn: 1800 x 1200 resized to height 600 gives an 1800 x 1200 canvas |
| Pipeline.PathCombine | Program.cs:74 | `Path.Combine` for a relative name: adds a '/' only where the directory lacks one; no ensures of its own, `CanvasLayout` states the resulting path |
| Pipeline.OutputName | Program.cs:74 | `combined_<index>.jpg`; no ensures of its own, `OutputPathsIndexed` reads the index back |
| Pipeline.OutputPath | Program.cs:74 | `./output/combined_<index>.jpg`; no ensures of its own, `OutputPathsIndexed` and `OutputPathsDistinct` state its properties |
| Pipeline.Stacked | Program.cs:57-69 | the draw calls of one group, as `StackImages` computes them; no ensures of its own, `DrawLayout` states its layout |
| Pipeline.CombineGroup | Program.cs:41-77 | one group's saved image: path, canvas from the loaded sizes, the stacked resized images; no ensures of its own, `CanvasLayout`, `DrawLayout` and `FilesOfCombined` state its properties |
| Pipeline.CombineGroups | Program.cs:38-79 | one combined image per group |
| Pipeline.CombineGroupsAt | Program.cs:38-79 | the `k`-th combined image (from 0) is group `k`'s, saved under index `k + 1` |
| Pipeline.FilesOfCombined | Program.cs:58-66 | a combined image draws exactly its group's files, in order |
| Pipeline.DrawnFilesOfGroups | Program.cs:39-70 | the files drawn over all combined images, in order, are the groups laid end to end |
| Pipeline.CombineOne | Program.cs:40-77 | one round of the loop over groups builds that group's combined image under `imageIndex` |
| Pipeline.CombineAll | Program.cs:25-79 | `ceil(n / 5)` combined images; the `i`-th is group `i` saved under index `i + 1`; the files drawn, in order, are exactly the sorted list |
| Pipeline.Run | Program.cs:21-79 | the run fails iff the sort throws, with the sort's exception; otherwise it holds everything CombineAll states, for the sorted list |
| Pipeline.ListedFileKey | Program.cs:13-22 | a listed `./imagens/img<n>.jpg` has key `n` |
| Pipeline.CanvasLayout | Program.cs:41-55 | a combined image is saved as `./output/combined_<index>.jpg`; its width is the maximum loaded width; when the loaded heights fit in an `int`, its height is their sum |
| Pipeline.DrawLayout | Program.cs:57-69 | each resized image is drawn at x = 0 at the target width, in group order, the first at y = 0; when the heights fit, each next one is exactly below the previous |
| Pipeline.OutputPathsIndexed | Program.cs:74 | the program's own key reads an output name's index back, so the outputs sort numerically in saving order |
| Pipeline.OutputPathsDistinct | Program.cs:74-75 | different indices give different output paths, so no saved image overwrites another |

## Left out

- File-system and console I/O are parameters or left out. This covers
  `Directory.GetFiles`, `Image.Load`, `Image.Save` and
  `Console.WriteLine`. The listed paths are the input of `Pipeline.Run`,
  `load` stands for decoding, and saved images are returned as values.
- `Image.Load` failing on a file that is not an image is not modelled; the
  model's `load` always returns a size.
- The source loads each file twice, once to measure it (Program.cs:47) and
  once to draw it (Program.cs:60). The model uses one `load` function for
  both, so it assumes both loads report the same size.
  `Composition.CanvasUsesOriginalSize` relies on this.
- ImageSharp's `Resize` and `DrawImage` are third-party pixel operations.
  A draw is recorded as its position and size.
- The resized-height formula `(int)((double)desiredWidth / image.Width * image.Height)`
  is floating-point. The resized height is an opaque input (`resize`) of
  at least 1.
- Image sizes are between 1 and `int.MaxValue` (`Composition.Dim`). A
  canvas whose wrapped height is not positive would make the
  `Image<Rgba32>` constructor throw; that exception is not modelled.
- `Grouping.CeilDiv`: `Math.Ceiling` on a `double` is modelled as exact
  ceiling division of integers. These agree for every `int`-sized list.
- Only the ASCII digits '0'..'9' count as digits. Unicode decimal digits
  (which `char.IsDigit` also accepts) and culture-specific `int.Parse`
  rules are left out.
- `FileOrder.FileNameWithoutExtension` is simplified:
  - only '/' separates directories;
  - the extension is what follows the last '.' of the file name;
  - the other rules of `Path.GetFileNameWithoutExtension` (e.g. '\\' on
    Windows) are not modelled.
- `Path.Combine` is modelled for a relative second argument (`Pipeline.PathCombine`).
- `FileOrder.SortFiles`: `Array.Sort` is specified by what it promises, not
  by its introspective sort algorithm. Consequences:
  - the order it gives equal keys is not modelled, since stability is not
    promised;
  - `Array.Sort` wraps an exception thrown by the comparison in an
    `InvalidOperationException`; the model reports the underlying key error;
  - when several files lack a key, the model reports the first in list
    order, while the real sort reports whichever it compares first.
- The in-place string array and `List<string[]>` are sequences. `Array.Copy`
  is a slice, and the sort returns a new sequence.
- `using` blocks and disposal are not observable in a sequential model.
