/** The two orderings the PDF packager applies to directory listings:
    `sorted_numeric_filenames` for image files and `sorted_numeric_subdirs`
    for chapter directories. */
module NumericSort {
  import opened Names
  import opened Ordering

  /** The integer `extract_number` gives a file name: every ASCII digit of
      the name without its extension, read as one decimal number, or 0 when
      there is none. "p1_2.jpg" gives 12, "a.jpg" gives 0. */
  function FileNumber(name: string): nat {
    DecimalValue(DigitsOf(Stem(name)))
  }

  function FileKey(name: string): SortKey {
    Num(FileNumber(name))
  }

  /** `sorted_numeric_filenames`. */
  function SortedNumericFilenames(files: seq<string>): seq<string> {
    SortBy(files, FileKey)
  }

  /** `sort_key` of `sorted_numeric_subdirs`: `(0, int(x))` for an all-digit
      name, `(1, x)` otherwise. */
  function SubdirKey(name: string): SortKey {
    if AllDigits(name) then Num(DecimalValue(name)) else Word(name)
  }

  /** `sorted_numeric_subdirs`. */
  function SortedNumericSubdirs(names: seq<string>): seq<string> {
    SortBy(names, SubdirKey)
  }

  /** The filename sort returns a permutation of its input whose numbers
      never decrease and in which names with equal numbers keep their input
      order; it is the only sequence with these three properties. */
  lemma SortedNumericFilenamesSpec(files: seq<string>)
    ensures var r := SortedNumericFilenames(files);
      && multiset(r) == multiset(files)
      && (forall i, j :: 0 <= i < j < |r| ==> FileNumber(r[i]) <= FileNumber(r[j]))
      && (forall n: nat :: WithKey(r, FileKey, Num(n)) == WithKey(files, FileKey, Num(n)))
    ensures forall r :: r == SortedNumericFilenames(files) <==> IsStableSortOf(r, files, FileKey)
  {
    var r := SortedNumericFilenames(files);
    SortByPermutation(files, FileKey);
    SortBySorted(files, FileKey);
    forall n: nat ensures WithKey(r, FileKey, Num(n)) == WithKey(files, FileKey, Num(n)) {
      SortByStable(files, FileKey, Num(n));
    }
    forall r' ensures r' == SortedNumericFilenames(files) <==> IsStableSortOf(r', files, FileKey) {
      SortByCharacterization(files, r', FileKey);
    }
  }

  /** A name without digits gets number 0, so it is placed before every
      name whose number is positive ("a.jpg" before "1.jpg"). */
  lemma DigitlessNamesFirst(files: seq<string>, i: int, j: int)
    requires var r := SortedNumericFilenames(files);
      0 <= i < |r| && 0 <= j < |r| && DigitsOf(Stem(r[i])) == [] && FileNumber(r[j]) > 0
    ensures i < j
  {
    var r := SortedNumericFilenames(files);
    SortBySorted(files, FileKey);
    SortedStrictlyBefore(r, FileKey, i, j);
  }

  /** Names numbered 10, 2, 0 and 1 in that order, such as "10.jpg",
      "2.jpg", "a.jpg" and "1.jpg" (see `JpgNumber`), come out with the one
      numbered 0 in front, then by number. */
  lemma DigitlessExample(ten: string, two: string, none: string, one: string)
    requires FileNumber(ten) == 10 && FileNumber(two) == 2 && FileNumber(none) == 0 && FileNumber(one) == 1
    ensures SortedNumericFilenames([ten, two, none, one]) == [none, one, two, ten]
  {
    FourByKey(ten, two, none, one, FileKey);
  }

  /** The stable sort of four elements keyed 10, 2, 0 and 1. */
  lemma FourByKey<X>(ten: X, two: X, none: X, one: X, key: X -> SortKey)
    requires key(ten) == Num(10) && key(two) == Num(2) && key(none) == Num(0) && key(one) == Num(1)
    ensures SortBy([ten, two, none, one], key) == [none, one, two, ten]
  {
    var xs := [ten, two, none, one];
    assert xs[1..] == [two, none, one] && xs[1..][1..] == [none, one] && xs[1..][1..][1..] == [one];
    assert SortBy([one], key) == [one] by { assert [one][1..] == []; }
    assert SortBy([none, one], key) == [none, one] by { assert [none, one][1..] == [one]; }
    assert Insert(two, [one], key) == [one, two] by { assert [one][1..] == []; }
    assert Insert(two, [none, one], key) == [none, one, two] by { assert [none, one][1..] == [one]; }
    assert Insert(ten, [two], key) == [two, ten] by { assert [two][1..] == []; }
    assert Insert(ten, [one, two], key) == [one, two, ten] by { assert [one, two][1..] == [two]; }
    assert Insert(ten, [none, one, two], key) == [none, one, two, ten] by { assert [none, one, two][1..] == [one, two]; }
  }

  /** The number of "<base>.jpg", for a base without dots or slashes, is the
      base's value when it is all digits and 0 when it has none. */
  lemma JpgNumber(base: string)
    requires base != [] && forall k :: 0 <= k < |base| ==> base[k] != '.' && base[k] != '/'
    ensures AllDigits(base) ==> FileNumber(base + ".jpg") == DecimalValue(base)
    ensures (forall k :: 0 <= k < |base| ==> !IsDigit(base[k])) ==> FileNumber(base + ".jpg") == 0
  {
    StemOfJpg(base);
    if AllDigits(base) {
      DigitsOfDigits(base);
    }
  }

  /** The stem of a ".jpg" name whose base has no dot or slash. */
  lemma StemOfJpg(base: string)
    requires base != [] && forall k :: 0 <= k < |base| ==> base[k] != '.' && base[k] != '/'
    ensures Stem(base + ".jpg") == base
  {
    var p := base + ".jpg";
    assert p[|base|] == '.' && p[0] == base[0];
    assert RFind(p, '.') == |base|;
    assert RFind(p, '/') == -1;
    assert p[..|base|] == base;
  }

  /** The subdirectory sort returns a permutation of its input in which every
      all-digit name precedes every other name, all-digit names ascend by
      integer value, the other names ascend as Python compares strings, and
      names with equal keys (such as "01" and "1") keep their input order. */
  lemma SortedNumericSubdirsSpec(names: seq<string>)
    ensures var r := SortedNumericSubdirs(names);
      && multiset(r) == multiset(names)
      && (forall i, j :: 0 <= i < |r| && 0 <= j < |r| && AllDigits(r[i]) && !AllDigits(r[j]) ==> i < j)
      && (forall i, j :: 0 <= i < j < |r| && AllDigits(r[i]) && AllDigits(r[j]) ==> DecimalValue(r[i]) <= DecimalValue(r[j]))
      && (forall i, j :: 0 <= i < j < |r| && !AllDigits(r[i]) && !AllDigits(r[j]) ==> StrLe(r[i], r[j]))
      && (forall k :: WithKey(r, SubdirKey, k) == WithKey(names, SubdirKey, k))
  {
    var r := SortedNumericSubdirs(names);
    SortByPermutation(names, SubdirKey);
    SortBySorted(names, SubdirKey);
    forall i, j | 0 <= i < |r| && 0 <= j < |r| && AllDigits(r[i]) && !AllDigits(r[j]) ensures i < j {
      SortedStrictlyBefore(r, SubdirKey, i, j);
    }
    forall k ensures WithKey(r, SubdirKey, k) == WithKey(names, SubdirKey, k) {
      SortByStable(names, SubdirKey, k);
    }
  }

  /** "2" comes before "10" as a subdirectory, although "10" < "2" as strings. */
  lemma TwoBeforeTen()
    ensures KeyLe(SubdirKey("2"), SubdirKey("10")) && SubdirKey("2") != SubdirKey("10")
    ensures StrLe("10", "2") && !StrLe("2", "10")
  {
    assert DecimalValue("10") == 10 by {
      assert "10"[..1] == "1";
    }
  }

  /** Non-numeric names compare as strings: "chapter10" before "chapter2". */
  lemma ChapterTenBeforeChapterTwo()
    ensures KeyLe(SubdirKey("chapter10"), SubdirKey("chapter2"))
    ensures SubdirKey("chapter10") != SubdirKey("chapter2")
  {
    assert !AllDigits("chapter10") by { assert !IsDigit("chapter10"[0]); }
    assert !AllDigits("chapter2") by { assert !IsDigit("chapter2"[0]); }
    assert "chapter10" == "chapter" + "10" && "chapter2" == "chapter" + "2";
    StrLeCommonPrefix("chapter", "10", "2");
  }

  /** "01" and "1" have the same key, so the sort keeps them in input order. */
  lemma LeadingZeroTies()
    ensures SubdirKey("01") == SubdirKey("1")
  {
    LeadingZero("1");
    assert ['0'] + "1" == "01";
  }
}
