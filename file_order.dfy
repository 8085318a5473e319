/**
 * CompareFileNamesNumerically and the `Array.Sort` call that uses it: image
 * files are ordered by the number in their name, not lexicographically.
 */
module FileOrder {
  import opened Wrappers
  import opened DigitKey
  import KeySort
  import Int32

  const DIRECTORY_SEPARATOR: char := '/'
  const EXTENSION_SEPARATOR: char := '.'

  /** `string.LastIndexOf(c)`: the position of the last `c` in `s`, or -1. */
  function LastIndexOf(s: string, c: char): (k: int)
    ensures -1 <= k < |s|
    ensures k >= 0 ==> s[k] == c
    ensures forall j :: k < j < |s| ==> s[j] != c
    decreases |s|
  {
    if s == [] then -1
    else if s[|s| - 1] == c then |s| - 1
    else LastIndexOf(s[..|s| - 1], c)
  }

  /** `Path.GetFileName`: what follows the last directory separator. */
  function FileName(path: string): string {
    path[LastIndexOf(path, DIRECTORY_SEPARATOR) + 1..]
  }

  /** A file name up to its last '.', if it has one. */
  function StripExtension(name: string): string {
    var dot := LastIndexOf(name, EXTENSION_SEPARATOR);
    if dot < 0 then name else name[..dot]
  }

  /** `Path.GetFileNameWithoutExtension`. */
  function FileNameWithoutExtension(path: string): string {
    StripExtension(FileName(path))
  }

  /** The key the comparator extracts from one path, or the exception it raises. */
  function FileKey(path: string): Result<int, ParseError> {
    ExtractedNumber(FileNameWithoutExtension(path))
  }

  /** `int.CompareTo`: -1, 0 or 1. */
  function CompareTo(x: int, y: int): (c: int)
    ensures -1 <= c <= 1
    ensures c < 0 <==> x < y
    ensures c == 0 <==> x == y
  {
    if x < y then -1 else if x > y then 1 else 0
  }

  /** The comparator, keys extracted from `a` first; an exception from either extraction escapes. */
  function CompareFileNamesNumerically(a: string, b: string): Result<int, ParseError> {
    match FileKey(a)
    case Err(e) => Err(e)
    case Ok(numberA) =>
      match FileKey(b)
      case Err(e) => Err(e)
      case Ok(numberB) => Ok(CompareTo(numberA, numberB))
  }

  lemma LastIndexOfIs(s: string, c: char, k: int)
    requires -1 <= k < |s|
    requires k >= 0 ==> s[k] == c
    requires forall j :: k < j < |s| ==> s[j] != c
    ensures LastIndexOf(s, c) == k
  {
  }

  /** The last `c` of `a + [c] + b`, when `b` has none, is the one between them. */
  lemma {:induction false} LastIndexOfSplit(a: string, c: char, b: string)
    requires c !in b
    ensures LastIndexOf(a + [c] + b, c) == |a|
    decreases |b|
  {
    var s := a + [c] + b;
    if b != [] {
      var b' := b[..|b| - 1];
      assert s[|s| - 1] == b[|b| - 1];
      assert s[..|s| - 1] == a + [c] + b';
      assert c !in b' by {
        forall i | 0 <= i < |b'| ensures b'[i] != c { assert b'[i] == b[i]; }
      }
      LastIndexOfSplit(a, c, b');
    }
  }

  /** A name without separators is its own file name, whatever directory precedes it. */
  lemma FileNameAfterDirectory(dir: string, name: string)
    requires dir == [] || dir[|dir| - 1] == DIRECTORY_SEPARATOR
    requires DIRECTORY_SEPARATOR !in name
    ensures FileName(dir + name) == name
  {
    if dir == [] {
      assert dir + name == name;
      LastIndexOfIs(name, DIRECTORY_SEPARATOR, -1);
    } else {
      var d := dir[..|dir| - 1];
      assert dir + name == d + [DIRECTORY_SEPARATOR] + name;
      LastIndexOfSplit(d, DIRECTORY_SEPARATOR, name);
      assert (d + [DIRECTORY_SEPARATOR] + name)[|d| + 1..] == name;
    }
  }

  lemma StripExtensionOf(stem: string, ext: string)
    requires EXTENSION_SEPARATOR !in ext
    ensures StripExtension(stem + [EXTENSION_SEPARATOR] + ext) == stem
  {
    LastIndexOfSplit(stem, EXTENSION_SEPARATOR, ext);
    assert (stem + [EXTENSION_SEPARATOR] + ext)[..|stem|] == stem;
  }

  lemma NotInJoin(c: char, a: string, d: char, b: string)
    requires c !in a && c !in b && c != d
    ensures c !in a + [d] + b
  {
    assert multiset(a + [d] + b) == multiset(a) + multiset{d} + multiset(b);
    assert c !in multiset(a) && c !in multiset(b);
  }

  /**
   * For a path `dir + stem + "." + ext`, where `dir` is empty or ends in the
   * separator, neither `stem` nor `ext` holds a separator and `ext` holds no
   * '.', the name without extension is `stem`: digits in the directory or
   * in the extension never reach the key.
   */
  lemma StemOfPath(dir: string, stem: string, ext: string)
    requires dir == [] || dir[|dir| - 1] == DIRECTORY_SEPARATOR
    requires DIRECTORY_SEPARATOR !in stem && DIRECTORY_SEPARATOR !in ext
    requires EXTENSION_SEPARATOR !in ext
    ensures FileNameWithoutExtension(dir + stem + [EXTENSION_SEPARATOR] + ext) == stem
  {
    var name := stem + [EXTENSION_SEPARATOR] + ext;
    NotInJoin(DIRECTORY_SEPARATOR, stem, EXTENSION_SEPARATOR, ext);
    assert dir + stem + [EXTENSION_SEPARATOR] + ext == dir + name;
    FileNameAfterDirectory(dir, name);
    StripExtensionOf(stem, ext);
  }

  /**
   * A ".jpg" file named by a digit-free prefix and the decimal spelling of
   * `n`, with or without a directory before it, has key `n`.
   */
  lemma KeyOfSpelledName(dir: string, prefix: string, n: nat)
    requires dir == [] || dir[|dir| - 1] == DIRECTORY_SEPARATOR
    requires NoDigit(prefix) && DIRECTORY_SEPARATOR !in prefix
    requires n <= Int32.MAX
    ensures FileKey(dir + prefix + ToDecimal(n) + ".jpg") == Ok(n)
  {
    var path := dir + prefix + ToDecimal(n) + ".jpg";
    var stem := prefix + ToDecimal(n);
    SpelledStem(prefix, ToDecimal(n));
    StemOfPath(dir, stem, "jpg");
    SpelledPathParts(dir, prefix, ToDecimal(n));
    assert FileNameWithoutExtension(path) == stem;
    SpelledNumber(prefix, n, "");
    assert prefix + ToDecimal(n) + "" == stem;
    assert ExtractedNumber(stem) == Ok(n);
  }

  lemma SpelledStem(prefix: string, digits: string)
    requires DIRECTORY_SEPARATOR !in prefix && AllDigits(digits)
    ensures DIRECTORY_SEPARATOR !in prefix + digits
  {
    var stem := prefix + digits;
    forall i | 0 <= i < |stem| ensures stem[i] != DIRECTORY_SEPARATOR {
      if i < |prefix| {
        assert stem[i] == prefix[i];
      } else {
        assert stem[i] == digits[i - |prefix|];
      }
    }
  }

  lemma SpelledPathParts(dir: string, prefix: string, digits: string)
    ensures dir + prefix + digits + ".jpg" == dir + (prefix + digits) + [EXTENSION_SEPARATOR] + "jpg"
  {
    assert ".jpg" == [EXTENSION_SEPARATOR] + "jpg";
  }

  /** "img2.jpg" has key 2 and "img10.jpg" key 10, with or without a directory before them. */
  lemma KeyOfNumberedName(dir: string, n: nat)
    requires dir == [] || dir[|dir| - 1] == DIRECTORY_SEPARATOR
    requires n <= Int32.MAX
    ensures FileKey(dir + "img" + ToDecimal(n) + ".jpg") == Ok(n)
  {
    assert NoDigit("img") && DIRECTORY_SEPARATOR !in "img";
    KeyOfSpelledName(dir, "img", n);
  }

  /**
   * The comparator fails exactly when one of the keys fails (the first
   * argument's exception wins), and otherwise its sign is the order of the
   * keys.
   */
  lemma ComparatorSign(a: string, b: string)
    ensures CompareFileNamesNumerically(a, b).Ok? <==> FileKey(a).Ok? && FileKey(b).Ok?
    ensures FileKey(a).Err? ==> CompareFileNamesNumerically(a, b) == Err(FileKey(a).error)
    ensures FileKey(a).Ok? && FileKey(b).Err? ==> CompareFileNamesNumerically(a, b) == Err(FileKey(b).error)
    ensures CompareFileNamesNumerically(a, b).Ok? ==>
              var c := CompareFileNamesNumerically(a, b).value;
              -1 <= c <= 1 &&
              (c < 0 <==> FileKey(a).value < FileKey(b).value) &&
              (c == 0 <==> FileKey(a).value == FileKey(b).value) &&
              (c > 0 <==> FileKey(a).value > FileKey(b).value)
  {
  }

  /** Swapping the arguments negates the result. */
  lemma ComparatorAntisymmetric(a: string, b: string)
    requires CompareFileNamesNumerically(a, b).Ok?
    ensures CompareFileNamesNumerically(b, a) == Ok(-CompareFileNamesNumerically(a, b).value)
  {
  }

  /** "Not after" is transitive, as `Array.Sort` needs of a comparison. */
  lemma ComparatorTransitive(a: string, b: string, c: string)
    requires CompareFileNamesNumerically(a, b).Ok? && CompareFileNamesNumerically(a, b).value <= 0
    requires CompareFileNamesNumerically(b, c).Ok? && CompareFileNamesNumerically(b, c).value <= 0
    ensures CompareFileNamesNumerically(a, c).Ok? && CompareFileNamesNumerically(a, c).value <= 0
  {
  }

  // ---------------------------------------------------------------- sorting

  /** Every file has a key, so the comparator never throws on these files. */
  predicate Keyed(files: seq<string>) {
    forall i :: 0 <= i < |files| ==> FileKey(files[i]).Ok?
  }

  /** The key of a path, and 0 for a path without one (used only where every key exists). */
  function SortKey(path: string): int {
    match FileKey(path)
    case Ok(n) => n
    case Err(_) => 0
  }

  /** What `Array.Sort` promises with this comparison: no earlier file compares after a later one. */
  predicate SortedByComparator(files: seq<string>) {
    forall i, j :: 0 <= i < j < |files| ==>
      CompareFileNamesNumerically(files[i], files[j]).Ok? &&
      CompareFileNamesNumerically(files[i], files[j]).value <= 0
  }

  /** With two or more files, being sorted by the comparator is having keys, in nondecreasing order. */
  lemma SortedMeansKeysNondecreasing(files: seq<string>)
    requires |files| >= 2
    ensures SortedByComparator(files) <==> Keyed(files) && KeySort.SortedBy(files, SortKey)
  {
    if SortedByComparator(files) {
      forall i | 0 <= i < |files| ensures FileKey(files[i]).Ok? {
        if i == 0 {
          assert CompareFileNamesNumerically(files[0], files[1]).Ok?;
        } else {
          assert CompareFileNamesNumerically(files[0], files[i]).Ok?;
        }
      }
    }
  }

  /** The first key exception among `files`, in list order, if any. */
  function FirstKeyError(files: seq<string>): (r: Option<ParseError>)
    ensures r.None? <==> Keyed(files)
    ensures r.Some? ==> exists i :: 0 <= i < |files| && FileKey(files[i]) == Err(r.value)
  {
    if files == [] then None
    else if FileKey(files[0]).Err? then Some(FileKey(files[0]).error)
    else
      var r := FirstKeyError(files[1..]);
      assert r.Some? ==> exists i :: 1 <= i < |files| && FileKey(files[i]) == Err(r.value) by {
        if r.Some? {
          var i :| 0 <= i < |files[1..]| && FileKey(files[1..][i]) == Err(r.value);
          assert FileKey(files[i + 1]) == Err(r.value);
        }
      }
      r
  }

  /** Files that are a permutation of keyed files are keyed. */
  lemma PermutationKeyed(a: seq<string>, b: seq<string>)
    requires multiset(a) == multiset(b) && Keyed(a)
    ensures Keyed(b)
  {
    forall i | 0 <= i < |b| ensures FileKey(b[i]).Ok? {
      assert b[i] in multiset(a);
    }
  }

  /**
   * `Array.Sort(imageFiles, CompareFileNamesNumerically)`. With fewer than two
   * files the comparator is never called, so nothing can fail; otherwise a
   * file without a key makes the sort throw. On success the files come back
   * as a permutation of the input, in comparator order.
   */
  function SortFiles(files: seq<string>): (r: Result<seq<string>, ParseError>)
    ensures r.Err? <==> |files| >= 2 && !Keyed(files)
    ensures r.Err? ==> exists i :: 0 <= i < |files| && FileKey(files[i]) == Err(r.error)
    ensures r.Ok? ==> multiset(r.value) == multiset(files) && |r.value| == |files|
    ensures r.Ok? ==> SortedByComparator(r.value)
  {
    if |files| <= 1 then Ok(files)
    else
      match FirstKeyError(files)
      case Some(e) => Err(e)
      case None =>
        var sorted := KeySort.InsertionSort(files, SortKey);
        PermutationKeyed(files, sorted);
        SortedMeansKeysNondecreasing(sorted);
        Ok(sorted)
  }

  /**
   * Stability is not promised, but the order of the keys is: any two
   * arrangements of the same files that the sort may return list the same
   * keys in the same order.
   */
  lemma SortedKeysUnique(a: seq<string>, b: seq<string>)
    requires |a| >= 2
    requires multiset(a) == multiset(b)
    requires SortedByComparator(a) && SortedByComparator(b)
    ensures KeySort.KeysOf(a, SortKey) == KeySort.KeysOf(b, SortKey)
  {
    assert |b| == |multiset(b)| == |multiset(a)| == |a|;
    SortedMeansKeysNondecreasing(a);
    SortedMeansKeysNondecreasing(b);
    KeySort.SortedKeysUnique(a, b, SortKey);
  }

  /** Sorting keyed files succeeds and orders them by nondecreasing key. */
  lemma SortKeyed(files: seq<string>)
    requires |files| >= 2 && Keyed(files)
    ensures SortFiles(files).Ok?
    ensures multiset(SortFiles(files).value) == multiset(files)
    ensures KeySort.SortedBy(SortFiles(files).value, SortKey)
  {
    SortedMeansKeysNondecreasing(SortFiles(files).value);
  }

  /** Files whose keys strictly increase along `target`, listed in any order, sort to `target`. */
  lemma SortDistinct(files: seq<string>, target: seq<string>)
    requires |files| >= 2 && Keyed(files)
    requires multiset(files) == multiset(target)
    requires forall i, j :: 0 <= i < j < |target| ==> SortKey(target[i]) < SortKey(target[j])
    ensures SortFiles(files) == Ok(target)
  {
    SortKeyed(files);
    KeySort.StrictlySortedUnique(SortFiles(files).value, target, SortKey);
  }

  /** The path "img<n>.jpg" in the current directory. */
  function NumberedName(n: nat): (path: string)
    requires n <= Int32.MAX
    ensures FileKey(path) == Ok(n)
  {
    KeyOfNumberedName("", n);
    assert "" + "img" + ToDecimal(n) + ".jpg" == "img" + ToDecimal(n) + ".jpg";
    "img" + ToDecimal(n) + ".jpg"
  }

  /**
   * The sort follows the numbers, not the spelling: "img<b>.jpg",
   * "img<c>.jpg", "img<a>.jpg" with a < b < c sort to "img<a>.jpg",
   * "img<b>.jpg", "img<c>.jpg" (for 1, 2 and 10 a string sort would put
   * "img10.jpg" before "img2.jpg").
   */
  lemma NumberedNamesSortByNumber(a: nat, b: nat, c: nat, files: seq<string>, sorted: seq<string>)
    requires a < b < c <= Int32.MAX
    requires files == [NumberedName(b), NumberedName(c), NumberedName(a)]
    requires sorted == [NumberedName(a), NumberedName(b), NumberedName(c)]
    ensures SortFiles(files) == Ok(sorted)
  {
    SortRotated(NumberedName(a), NumberedName(b), NumberedName(c), files, sorted);
  }

  /** Three files with increasing keys, listed second, third, first, sort to first, second, third. */
  lemma SortRotated(x: string, y: string, z: string, files: seq<string>, sorted: seq<string>)
    requires FileKey(x).Ok? && FileKey(y).Ok? && FileKey(z).Ok?
    requires SortKey(x) < SortKey(y) < SortKey(z)
    requires files == [y, z, x] && sorted == [x, y, z]
    ensures SortFiles(files) == Ok(sorted)
  {
    RotatedKeyed(x, y, z);
    RotatedPermutation(x, y, z);
    IncreasingKeys(x, y, z);
    SortDistinct(files, sorted);
  }

  lemma RotatedKeyed(x: string, y: string, z: string)
    requires FileKey(x).Ok? && FileKey(y).Ok? && FileKey(z).Ok?
    ensures Keyed([y, z, x])
  {
  }

  lemma RotatedPermutation<T>(x: T, y: T, z: T)
    ensures multiset([y, z, x]) == multiset([x, y, z])
  {
  }

  lemma IncreasingKeys(x: string, y: string, z: string)
    requires SortKey(x) < SortKey(y) < SortKey(z)
    ensures forall i, j :: 0 <= i < j < |[x, y, z]| ==> SortKey([x, y, z][i]) < SortKey([x, y, z][j])
  {
  }
}
