/** The PDF packager: `convert_images_to_pdf`, which gathers the images of an
    album directory in reading order and writes them into one PDF, and
    `convert_album_to_pdf`, which names that PDF after the album directory.

    The image library is an oracle: a file either decodes or it does not
    (`FileTree.Decodes`), and the PDF is the ordered sequence of the paths
    whose images went into it. Whether `save` succeeds is a parameter. */
module Packager {
  import opened Wrappers
  import opened Names
  import opened Ordering
  import opened NumericSort
  import opened FileTree

  /** `allowed_extensions`. */
  const ImageExtensions: set<string> := {".jpg", ".jpeg", ".png", ".webp", ".bmp"}

  /** `os.path.splitext(f)[1].lower() in allowed_extensions`. */
  predicate IsImageName(name: string) {
    Lower(Ext(name)) in ImageExtensions
  }

  /** The file name of the PDF for `pdf_name`: its stem plus ".pdf". */
  function PdfFileName(pdfName: string): string {
    Stem(pdfName) + ".pdf"
  }

  /** The entries of the listing `names` of `dir` that are image files, in
      listing order. */
  function ImageFiles(fs: Node, dir: Path, names: seq<string>): (r: seq<string>)
    ensures forall n :: n in r <==> n in names && IsFile(fs, dir + [n]) && IsImageName(n)
    ensures SubseqOf(r, names)
    decreases |names|
  {
    if names == [] then []
    else
      var init, last := names[..|names| - 1], names[|names| - 1];
      assert names == init + [last];
      var r := ImageFiles(fs, dir, init);
      if IsFile(fs, dir + [last]) && IsImageName(last) then
        SubseqOfExtend(r, init, last);
        r + [last]
      else
        SubseqOfSnoc(r, init, last);
        r
  }

  /** The entries of the listing `names` of `dir` that are directories, in
      listing order. */
  function Subdirs(fs: Node, dir: Path, names: seq<string>): (r: seq<string>)
    ensures forall n :: n in r <==> n in names && IsDir(fs, dir + [n])
    ensures SubseqOf(r, names)
    decreases |names|
  {
    if names == [] then []
    else
      var init, last := names[..|names| - 1], names[|names| - 1];
      assert names == init + [last];
      var r := Subdirs(fs, dir, init);
      if IsDir(fs, dir + [last]) then
        SubseqOfExtend(r, init, last);
        r + [last]
      else
        SubseqOfSnoc(r, init, last);
        r
  }

  /** `os.path.join(dir, n)` for each name, in order. */
  function JoinAll(dir: Path, names: seq<string>): (r: seq<Path>)
    ensures |r| == |names| && forall k :: 0 <= k < |r| ==> r[k] == dir + [names[k]]
  {
    seq(|names|, k requires 0 <= k < |names| => dir + [names[k]])
  }

  lemma JoinAllSnoc(dir: Path, names: seq<string>, n: string)
    ensures JoinAll(dir, names + [n]) == JoinAll(dir, names) + [dir + [n]]
  {
  }

  /** `p` names an image file listed directly in the directory `dir`. */
  predicate ImageAt(fs: Node, dir: Path, p: Path) {
    && |p| == |dir| + 1 && p[..|dir|] == dir
    && ListDir(fs, dir).Some? && p[|dir|] in ListDir(fs, dir).value
    && IsFile(fs, p) && IsImageName(p[|dir|])
  }

  /** The image paths one directory contributes: its image files in
      filename order, or nothing when listing it fails (the warning branches
      of the source). */
  function DirImages(fs: Node, dir: Path): seq<Path> {
    match ListDir(fs, dir)
    case None => []
    case Some(names) => JoinAll(dir, SortedNumericFilenames(ImageFiles(fs, dir, names)))
  }

  /** The image paths of the chapter directories `subdirs` of `dir`, one
      directory after the other. */
  function ChapterImages(fs: Node, dir: Path, subdirs: seq<string>): seq<Path> {
    ConcatMap(subdirs, s => DirImages(fs, dir + [s]))
  }

  /** The concatenation of `f(x)` over the elements `x` of `s`, in order. */
  function ConcatMap<T, U>(s: seq<T>, f: T -> seq<U>): seq<U>
    decreases |s|
  {
    if s == [] then [] else ConcatMap(s[..|s| - 1], f) + f(s[|s| - 1])
  }

  /** `image_paths` as the discovery step leaves it, or None when listing
      `input` fails. With at least one subdirectory only the subdirectories
      are read; otherwise the directory's own files are. */
  function DiscoverImages(fs: Node, input: Path): Option<seq<Path>> {
    match ListDir(fs, input)
    case None => None
    case Some(names) =>
      var subdirs := SortedNumericSubdirs(Subdirs(fs, input, names));
      if subdirs == [] then Some(DirImages(fs, input)) else Some(ChapterImages(fs, input, subdirs))
  }

  /** `valid_images`: the paths whose image opens, in order. */
  function Usable(fs: Node, paths: seq<Path>): seq<Path>
    decreases |paths|
  {
    if paths == [] then []
    else
      var last := paths[|paths| - 1];
      Usable(fs, paths[..|paths| - 1]) + if Decodes(fs, last) then [last] else []
  }

  /** `a` is what remains of `b` after deleting some of its elements. */
  predicate SubseqOf<T(==)>(a: seq<T>, b: seq<T>)
    decreases |b|
  {
    || a == []
    || (&& b != []
        && if a[|a| - 1] == b[|b| - 1] then SubseqOf(a[..|a| - 1], b[..|b| - 1])
           else SubseqOf(a, b[..|b| - 1]))
  }

  /** How a call of `convert_images_to_pdf` (or `convert_album_to_pdf`) ends;
      `Succeeded` is the boolean it returns. */
  datatype Status =
    | AlreadyExists   // the PDF was there: True without doing anything
    | Written         // the PDF was saved: True
    | AlbumMissing    // `convert_album_to_pdf` found no album directory
    | InputMissing    // the input folder does not exist
    | ListingFailed   // the input folder could not be listed
    | NoImageFiles    // no image file was discovered
    | NoUsableImages  // no discovered image could be opened
    | SaveFailed      // writing the PDF raised
    | MakeDirsRaised  // `os.makedirs` raised; the exception leaves the function
  {
    predicate Succeeded() { this == AlreadyExists || this == Written }
  }

  /** The outcome of a conversion: its status, the file system afterwards, and
      the pages of the PDF it wrote, if it wrote one. */
  datatype Packing = Packing(status: Status, fs: Node, pages: Option<seq<Path>>)

  /** The node a successful save leaves at the PDF's path. */
  function PdfNode(pdfName: string, now: int): Node {
    File(PdfFileName(pdfName), Some(now), false)
  }

  /** What `convert_images_to_pdf(input, output, pdf_name)` does, step by step
      in the order of the source: create the output directory, then go on
      as `PackIn` says. */
  function PackSpec(fs: Node, input: Path, output: Path, pdfName: string, now: int, saveOk: bool): Packing {
    match MakeDirs(fs, output, now)
    case None => Packing(MakeDirsRaised, fs, None)
    case Some(fs1) => PackIn(fs1, input, output, pdfName, now, saveOk)
  }

  /** The rest of the call, once the output directory exists in `fs1`: skip
      if the PDF exists, check and list the input, discover images, keep
      those that open, save. */
  function PackIn(fs1: Node, input: Path, output: Path, pdfName: string, now: int, saveOk: bool): Packing {
    if Exists(fs1, output + [PdfFileName(pdfName)]) then Packing(AlreadyExists, fs1, None)
    else if !Exists(fs1, input) then Packing(InputMissing, fs1, None)
    else match DiscoverImages(fs1, input)
      case None => Packing(ListingFailed, fs1, None)
      case Some(paths) =>
        if paths == [] then Packing(NoImageFiles, fs1, None)
        else
          var pages := Usable(fs1, paths);
          if pages == [] then Packing(NoUsableImages, fs1, None)
          else if !saveOk then Packing(SaveFailed, fs1, None)
          else Packing(Written, AddChild(fs1, output, PdfNode(pdfName, now)), Some(pages))
  }

  /** The inner loop `for f in files: image_paths.append(os.path.join(dir, f))`. */
  method AppendJoined(dir: Path, files: seq<string>, imagePaths: seq<Path>) returns (r: seq<Path>)
    ensures r == imagePaths + JoinAll(dir, files)
  {
    r := imagePaths;
    for k := 0 to |files|
      invariant r == imagePaths + JoinAll(dir, files[..k])
    {
      assert files[..k + 1] == files[..k] + [files[k]];
      JoinAllSnoc(dir, files[..k], files[k]);
      r := r + [dir + [files[k]]];
    }
    assert files[..|files|] == files;
  }

  /** The body of one `try` block of the discovery step: append the image
      files of `dir`, in filename order, to `imagePaths`; a listing that
      raises appends nothing. */
  method AppendDirImages(fs: Node, dir: Path, imagePaths: seq<Path>) returns (r: seq<Path>)
    ensures r == imagePaths + DirImages(fs, dir)
  {
    var entries := ListDir(fs, dir);
    if entries.None? {
      return imagePaths;
    }
    var files := SortedNumericFilenames(ImageFiles(fs, dir, entries.value));
    r := AppendJoined(dir, files, imagePaths);
  }

  /** The loop over the sorted subdirectories. */
  method CollectChapterImages(fs: Node, input: Path, subdirs: seq<string>) returns (imagePaths: seq<Path>)
    ensures imagePaths == ChapterImages(fs, input, subdirs)
  {
    imagePaths := [];
    for i := 0 to |subdirs|
      invariant imagePaths == ChapterImages(fs, input, subdirs[..i])
    {
      ChapterImagesPrefix(fs, input, subdirs, i);
      imagePaths := AppendDirImages(fs, input + [subdirs[i]], imagePaths);
    }
    assert subdirs[..|subdirs|] == subdirs;
  }

  /** The loop that opens every discovered image and keeps those that open. */
  method KeepUsable(fs: Node, imagePaths: seq<Path>) returns (validImages: seq<Path>)
    ensures validImages == Usable(fs, imagePaths)
  {
    validImages := [];
    for i := 0 to |imagePaths|
      invariant validImages == Usable(fs, imagePaths[..i])
    {
      if Decodes(fs, imagePaths[i]) {
        validImages := validImages + [imagePaths[i]];
      }
      assert imagePaths[..i + 1][..i] == imagePaths[..i];
    }
    assert imagePaths[..|imagePaths|] == imagePaths;
  }

  /** `convert_images_to_pdf`, with its early returns; it ends exactly as
      `PackSpec` says. */
  method ConvertImagesToPdf(fs: Node, input: Path, output: Path, pdfName: string, now: int, saveOk: bool)
    returns (status: Status, fs': Node, pages: Option<seq<Path>>)
    ensures Packing(status, fs', pages) == PackSpec(fs, input, output, pdfName, now, saveOk)
  {
    var made := MakeDirs(fs, output, now);
    if made.None? {
      return MakeDirsRaised, fs, None;
    }
    var tree := made.value;
    var pdfFullPath := output + [PdfFileName(pdfName)];
    if Exists(tree, pdfFullPath) {
      return AlreadyExists, tree, None;
    }
    var imagePaths: seq<Path> := [];
    if !Exists(tree, input) {
      return InputMissing, tree, None;
    }
    var listing := ListDir(tree, input);
    if listing.None? {
      return ListingFailed, tree, None;
    }
    var subdirs := SortedNumericSubdirs(Subdirs(tree, input, listing.value));
    if subdirs == [] {
      imagePaths := AppendDirImages(tree, input, imagePaths);
      assert imagePaths == DirImages(tree, input);
    } else {
      imagePaths := CollectChapterImages(tree, input, subdirs);
    }
    assert DiscoverImages(tree, input) == Some(imagePaths);
    if imagePaths == [] {
      return NoImageFiles, tree, None;
    }
    var validImages := KeepUsable(tree, imagePaths);
    if validImages == [] {
      return NoUsableImages, tree, None;
    }
    if !saveOk {
      return SaveFailed, tree, None;
    }
    return Written, AddChild(tree, output, PdfNode(pdfName, now)), Some(validImages);
  }

  /** `convert_album_to_pdf(album_dir, base_output_dir)`: the album directory
      must exist; the PDF is named after its last component and goes to
      `base_output_dir`, by default the album's parent directory. */
  function AlbumSpec(fs: Node, albumDir: Path, baseOutputDir: Option<Path>, now: int, saveOk: bool): Packing {
    if !Exists(fs, albumDir) then Packing(AlbumMissing, fs, None)
    else
      var output := if baseOutputDir.None? then Dirname(albumDir) else baseOutputDir.value;
      PackSpec(fs, albumDir, output, Basename(albumDir), now, saveOk)
  }

  /** `convert_album_to_pdf`. */
  method ConvertAlbumToPdf(fs: Node, albumDir: Path, baseOutputDir: Option<Path>, now: int, saveOk: bool)
    returns (status: Status, fs': Node, pages: Option<seq<Path>>)
    ensures Packing(status, fs', pages) == AlbumSpec(fs, albumDir, baseOutputDir, now, saveOk)
  {
    if !Exists(fs, albumDir) {
      return AlbumMissing, fs, None;
    }
    var albumName := Basename(albumDir);
    var output := if baseOutputDir.None? then Dirname(albumDir) else baseOutputDir.value;
    status, fs', pages := ConvertImagesToPdf(fs, albumDir, output, albumName, now, saveOk);
  }

  // ---------------------------------------------------------------------
  // Discovery

  lemma JoinAllMembers(dir: Path, names: seq<string>)
    ensures forall p :: p in JoinAll(dir, names) <==> |p| == |dir| + 1 && p[..|dir|] == dir && p[|dir|] in names
  {
    var r := JoinAll(dir, names);
    forall p | |p| == |dir| + 1 && p[..|dir|] == dir && p[|dir|] in names
      ensures p in r
    {
      var k :| 0 <= k < |names| && names[k] == p[|dir|];
      assert p == dir + [names[k]];
    }
    forall p | p in r
      ensures |p| == |dir| + 1 && p[..|dir|] == dir && p[|dir|] in names
    {
      var k :| 0 <= k < |r| && r[k] == p;
      assert (dir + [names[k]])[..|dir|] == dir;
    }
  }

  lemma LastSplit(p: Path, k: nat)
    requires |p| == k + 1
    ensures p == p[..k] + [p[k]]
  {
  }

  /** One directory contributes exactly the image files listed directly in it. */
  lemma DirImagesSpec(fs: Node, dir: Path)
    ensures forall p :: p in DirImages(fs, dir) <==> ImageAt(fs, dir, p)
  {
    if ListDir(fs, dir).Some? {
      var names := ListDir(fs, dir).value;
      var files := ImageFiles(fs, dir, names);
      var sorted := SortedNumericFilenames(files);
      assert DirImages(fs, dir) == JoinAll(dir, sorted);
      SortByMembers(files, FileKey);
      JoinAllMembers(dir, sorted);
      forall p | p in DirImages(fs, dir) ensures ImageAt(fs, dir, p) {
        var n := p[|dir|];
        assert n in files;
        LastSplit(p, |dir|);
      }
      forall p | ImageAt(fs, dir, p) ensures p in DirImages(fs, dir) {
        var n := p[|dir|];
        LastSplit(p, |dir|);
        assert n in files;
      }
    }
  }

  /** The images of a run of subdirectories are those of its first part
      followed by those of the rest: every image of an earlier subdirectory
      comes before every image of a later one. */
  lemma {:induction false} ConcatMapAppend<T, U>(a: seq<T>, b: seq<T>, f: T -> seq<U>)
    ensures ConcatMap(a + b, f) == ConcatMap(a, f) + ConcatMap(b, f)
    decreases |b|
  {
    if b == [] {
      assert a + b == a;
    } else {
      var b' := b[..|b| - 1];
      assert (a + b)[..|a + b| - 1] == a + b' && (a + b)[|a + b| - 1] == b[|b| - 1];
      ConcatMapAppend(a, b', f);
    }
  }

  /** One more subdirectory adds its images at the end. */
  lemma ChapterImagesSnoc(fs: Node, dir: Path, subdirs: seq<string>, last: string)
    ensures ChapterImages(fs, dir, subdirs + [last]) == ChapterImages(fs, dir, subdirs) + DirImages(fs, dir + [last])
  {
    var f := s => DirImages(fs, dir + [s]);
    assert (subdirs + [last])[..|subdirs|] == subdirs;
    assert f(last) == DirImages(fs, dir + [last]);
  }

  lemma ChapterImagesPrefix(fs: Node, dir: Path, subdirs: seq<string>, i: int)
    requires 0 <= i < |subdirs|
    ensures ChapterImages(fs, dir, subdirs[..i + 1]) == ChapterImages(fs, dir, subdirs[..i]) + DirImages(fs, dir + [subdirs[i]])
  {
    assert subdirs[..i + 1] == subdirs[..i] + [subdirs[i]];
    ChapterImagesSnoc(fs, dir, subdirs[..i], subdirs[i]);
  }

  lemma ChapterImagesAppend(fs: Node, dir: Path, a: seq<string>, b: seq<string>)
    ensures ChapterImages(fs, dir, a + b) == ChapterImages(fs, dir, a) + ChapterImages(fs, dir, b)
  {
    ConcatMapAppend(a, b, s => DirImages(fs, dir + [s]));
  }

  /** A subdirectory that cannot be listed is skipped: the images are those of
      the other subdirectories, in the same order. */
  lemma UnlistableSubdirSkipped(fs: Node, dir: Path, subdirs: seq<string>, i: int)
    requires 0 <= i < |subdirs| && ListDir(fs, dir + [subdirs[i]]).None?
    ensures ChapterImages(fs, dir, subdirs) == ChapterImages(fs, dir, subdirs[..i] + subdirs[i + 1..])
  {
    var pre, s, post := subdirs[..i], subdirs[i], subdirs[i + 1..];
    assert subdirs == pre + ([s] + post);
    ChapterImagesAppend(fs, dir, pre, [s] + post);
    ChapterImagesAppend(fs, dir, [s], post);
    assert ChapterImages(fs, dir, [s]) == [] by {
      ChapterImagesSnoc(fs, dir, [], s);
      assert [] + [s] == [s];
    }
    assert ChapterImages(fs, dir, [s] + post) == ChapterImages(fs, dir, post);
    ChapterImagesAppend(fs, dir, pre, post);
  }

  /** The chapter images are exactly the image files listed directly in one
      of the given subdirectories. */
  lemma {:induction false} ChapterImagesSpec(fs: Node, dir: Path, subdirs: seq<string>)
    ensures forall p :: p in ChapterImages(fs, dir, subdirs) <==>
      |p| == |dir| + 2 && p[..|dir|] == dir && p[|dir|] in subdirs && ImageAt(fs, p[..|dir| + 1], p)
    decreases |subdirs|
  {
    if subdirs != [] {
      var init, last := subdirs[..|subdirs| - 1], subdirs[|subdirs| - 1];
      assert subdirs == init + [last];
      ChapterImagesSnoc(fs, dir, init, last);
      ChapterImagesSpec(fs, dir, init);
      DirImagesSpec(fs, dir + [last]);
      var lastImages := DirImages(fs, dir + [last]);
      forall p: Path
        ensures p in ChapterImages(fs, dir, subdirs) <==>
          |p| == |dir| + 2 && p[..|dir|] == dir && p[|dir|] in subdirs && ImageAt(fs, p[..|dir| + 1], p)
      {
        assert p in ChapterImages(fs, dir, subdirs) <==> p in ChapterImages(fs, dir, init) || p in lastImages;
        ChapterImageStep(fs, dir, init, last, p);
      }
    }
  }

  /** An image of the chapters `init + [last]` is one of the chapters `init`
      or one listed directly in `last`. */
  lemma ChapterImageStep(fs: Node, dir: Path, init: seq<string>, last: string, p: Path)
    ensures (|p| == |dir| + 2 && p[..|dir|] == dir && p[|dir|] in init + [last] && ImageAt(fs, p[..|dir| + 1], p))
      <==> (|| (|p| == |dir| + 2 && p[..|dir|] == dir && p[|dir|] in init && ImageAt(fs, p[..|dir| + 1], p))
            || ImageAt(fs, dir + [last], p))
  {
    if |p| == |dir| + 2 {
      LastSplit(p[..|dir| + 1], |dir|);
      assert p[..|dir|] == p[..|dir| + 1][..|dir|];
    }
  }

  /** Image discovery: with no subdirectory the images are the image files
      directly in the input folder; with at least one, they are the image
      files directly inside the subdirectories, one level deep, and no file
      of the input folder itself. */
  lemma ImageDiscovery(fs: Node, input: Path)
    requires ListDir(fs, input).Some?
    ensures var subdirs := Subdirs(fs, input, ListDir(fs, input).value);
      && DiscoverImages(fs, input).Some?
      && (subdirs == [] ==> forall p :: p in DiscoverImages(fs, input).value <==> ImageAt(fs, input, p))
      && (subdirs != [] ==> forall p :: p in DiscoverImages(fs, input).value <==>
            && |p| == |input| + 2 && p[..|input|] == input && p[|input|] in subdirs
            && ImageAt(fs, p[..|input| + 1], p))
  {
    var subdirs := Subdirs(fs, input, ListDir(fs, input).value);
    SortByMembers(subdirs, SubdirKey);
    var sorted := SortedNumericSubdirs(subdirs);
    DirImagesSpec(fs, input);
    ChapterImagesSpec(fs, input, sorted);
  }

  /** One directory's images come in filename order: the numbers
      `extract_number` reads from their names never decrease. */
  lemma DirImagesOrder(fs: Node, dir: Path)
    ensures var ps := DirImages(fs, dir);
      forall k :: 0 <= k < |ps| ==> |ps[k]| == |dir| + 1 && ps[k][..|dir|] == dir
    ensures var ps := DirImages(fs, dir);
      forall i, j :: 0 <= i < j < |ps| ==> FileNumber(ps[i][|dir|]) <= FileNumber(ps[j][|dir|])
  {
    if ListDir(fs, dir).Some? {
      var sorted := SortedNumericFilenames(ImageFiles(fs, dir, ListDir(fs, dir).value));
      SortBySorted(ImageFiles(fs, dir, ListDir(fs, dir).value), FileKey);
      var ps := DirImages(fs, dir);
      assert forall k :: 0 <= k < |ps| ==> ps[k][|dir|] == sorted[k];
    }
  }

  /** Two images `p`, `q` of the chapters `subdirs` of `dir` with `p` listed
      before `q`: `p`'s chapter comes before `q`'s in `subdirs`, or both lie
      in the same chapter and `p`'s number is not larger. */
  ghost predicate ChapterOrdered(dir: Path, subdirs: seq<string>, p: Path, q: Path)
    requires |p| == |q| == |dir| + 2
  {
    || (exists a, b :: 0 <= a < b < |subdirs| && subdirs[a] == p[|dir|] && subdirs[b] == q[|dir|])
    || (p[|dir|] == q[|dir|] && FileNumber(p[|dir| + 1]) <= FileNumber(q[|dir| + 1]))
  }

  /** Every chapter image lies two levels below `dir`, in one of `subdirs`. */
  lemma {:induction false} ChapterImagesShape(fs: Node, dir: Path, subdirs: seq<string>)
    ensures var ps := ChapterImages(fs, dir, subdirs);
      forall k :: 0 <= k < |ps| ==> |ps[k]| == |dir| + 2 && ps[k][|dir|] in subdirs
    decreases |subdirs|
  {
    if subdirs != [] {
      var init, last := subdirs[..|subdirs| - 1], subdirs[|subdirs| - 1];
      ChapterImagesSnoc(fs, dir, init, last);
      ChapterImagesShape(fs, dir, init);
      DirImagesOrder(fs, dir + [last]);
      var c, d := ChapterImages(fs, dir, init), DirImages(fs, dir + [last]);
      forall k | 0 <= k < |d| ensures d[k][|dir|] == last {
        assert d[k][..|dir| + 1][|dir|] == last;
      }
      assert forall k :: 0 <= k < |c| ==> c[k][|dir|] in init ==> c[k][|dir|] in subdirs;
    }
  }

  /** The chapter images come chapter by chapter in the order of `subdirs`,
      and in filename order inside each chapter. */
  lemma {:induction false} ChapterImagesOrder(fs: Node, dir: Path, subdirs: seq<string>)
    ensures var ps := ChapterImages(fs, dir, subdirs);
      forall k :: 0 <= k < |ps| ==> |ps[k]| == |dir| + 2
    ensures var ps := ChapterImages(fs, dir, subdirs);
      forall i, j :: 0 <= i < j < |ps| ==> ChapterOrdered(dir, subdirs, ps[i], ps[j])
    decreases |subdirs|
  {
    if subdirs != [] {
      var init, last := subdirs[..|subdirs| - 1], subdirs[|subdirs| - 1];
      assert subdirs == init + [last];
      ChapterImagesSnoc(fs, dir, init, last);
      ChapterImagesOrder(fs, dir, init);
      ChapterImagesShape(fs, dir, init);
      DirImagesOrder(fs, dir + [last]);
      var d := DirImages(fs, dir + [last]);
      forall k | 0 <= k < |d| ensures d[k][|dir|] == last {
        assert d[k][..|dir| + 1][|dir|] == last;
      }
      OrderedAppend(dir, init, last, ChapterImages(fs, dir, init), d);
    }
  }

  /** The images of the chapters `init` followed by those of one more chapter
      `last` keep the chapter order of `init + [last]`. */
  lemma OrderedAppend(dir: Path, init: seq<string>, last: string, c: seq<Path>, d: seq<Path>)
    requires forall k :: 0 <= k < |c| ==> |c[k]| == |dir| + 2 && c[k][|dir|] in init
    requires forall i, j :: 0 <= i < j < |c| ==> ChapterOrdered(dir, init, c[i], c[j])
    requires forall k :: 0 <= k < |d| ==> |d[k]| == |dir| + 2 && d[k][|dir|] == last
    requires forall i, j :: 0 <= i < j < |d| ==> FileNumber(d[i][|dir| + 1]) <= FileNumber(d[j][|dir| + 1])
    ensures forall k :: 0 <= k < |c + d| ==> |(c + d)[k]| == |dir| + 2
    ensures forall i, j :: 0 <= i < j < |c + d| ==> ChapterOrdered(dir, init + [last], (c + d)[i], (c + d)[j])
  {
    var ps, subdirs := c + d, init + [last];
    forall i, j | 0 <= i < j < |ps| ensures ChapterOrdered(dir, subdirs, ps[i], ps[j]) {
      if j < |c| {
        SameOrderInPrefix(dir, init, last, c[i], c[j]);
      } else if i < |c| {
        var a :| 0 <= a < |init| && init[a] == c[i][|dir|];
        assert subdirs[a] == ps[i][|dir|] && subdirs[|init|] == ps[j][|dir|];
      } else {
        assert ps[i] == d[i - |c|] && ps[j] == d[j - |c|];
      }
    }
  }

  lemma SameOrderInPrefix(dir: Path, init: seq<string>, last: string, p: Path, q: Path)
    requires |p| == |q| == |dir| + 2 && ChapterOrdered(dir, init, p, q)
    ensures ChapterOrdered(dir, init + [last], p, q)
  {
    if exists a, b :: 0 <= a < b < |init| && init[a] == p[|dir|] && init[b] == q[|dir|] {
      var a, b :| 0 <= a < b < |init| && init[a] == p[|dir|] && init[b] == q[|dir|];
      assert (init + [last])[a] == init[a] && (init + [last])[b] == init[b];
    }
  }

  /** The order of the discovered images: without subdirectories, filename
      order; with subdirectories, chapter by chapter in the order of
      `sorted_numeric_subdirs` (so by chapter key, "2" before "10" and
      all-digit names before the others), and filename order inside each
      chapter. */
  lemma DiscoveryOrder(fs: Node, input: Path)
    requires ListDir(fs, input).Some?
    ensures var ps, subdirs := DiscoverImages(fs, input).value,
                               SortedNumericSubdirs(Subdirs(fs, input, ListDir(fs, input).value));
      && (subdirs == [] ==>
            && (forall k :: 0 <= k < |ps| ==> |ps[k]| == |input| + 1)
            && forall i, j :: 0 <= i < j < |ps| ==> FileNumber(ps[i][|input|]) <= FileNumber(ps[j][|input|]))
      && (subdirs != [] ==>
            && (forall k :: 0 <= k < |ps| ==> |ps[k]| == |input| + 2)
            && (forall i, j :: 0 <= i < j < |ps| ==> ChapterOrdered(input, subdirs, ps[i], ps[j]))
            && forall i, j :: 0 <= i < j < |ps| ==> KeyLe(SubdirKey(ps[i][|input|]), SubdirKey(ps[j][|input|])))
  {
    var subdirs := SortedNumericSubdirs(Subdirs(fs, input, ListDir(fs, input).value));
    if subdirs == [] {
      DirImagesOrder(fs, input);
    } else {
      var ps := ChapterImages(fs, input, subdirs);
      ChapterImagesOrder(fs, input, subdirs);
      SortBySorted(Subdirs(fs, input, ListDir(fs, input).value), SubdirKey);
      forall i, j | 0 <= i < j < |ps| ensures KeyLe(SubdirKey(ps[i][|input|]), SubdirKey(ps[j][|input|])) {
        assert ChapterOrdered(input, subdirs, ps[i], ps[j]);
        if ps[i][|input|] == ps[j][|input|] {
          KeyLeReflexive(SubdirKey(ps[i][|input|]));
        }
      }
    }
  }

  // ---------------------------------------------------------------------
  // Opening the images

  lemma {:induction false} SubseqOfExtend<T>(a: seq<T>, b: seq<T>, x: T)
    requires SubseqOf(a, b)
    ensures SubseqOf(a + [x], b + [x])
  {
    assert (a + [x])[..|a|] == a && (b + [x])[..|b|] == b;
  }

  /** A subsequence of `b` is also one of `b + [x]`. */
  lemma {:induction false} SubseqOfSnoc<T>(a: seq<T>, b: seq<T>, x: T)
    requires SubseqOf(a, b)
    ensures SubseqOf(a, b + [x])
    decreases |b|, 1
  {
    assert (b + [x])[..|b|] == b;
    if a != [] && a[|a| - 1] == x {
      SubseqOfInit(a, b);
    }
  }

  /** Deleting the last element of a subsequence leaves a subsequence. */
  lemma {:induction false} SubseqOfInit<T>(a: seq<T>, b: seq<T>)
    requires a != [] && SubseqOf(a, b)
    ensures SubseqOf(a[..|a| - 1], b)
    decreases |b|, 0
  {
    var b', y := b[..|b| - 1], b[|b| - 1];
    assert b == b' + [y];
    if a[|a| - 1] != y {
      SubseqOfInit(a, b');
    }
    SubseqOfSnoc(a[..|a| - 1], b', y);
  }

  /** The pages are the discovered images that open, in their discovered
      order: an image that does not open is dropped and the others keep
      their relative order. */
  lemma {:induction false} UsableSpec(fs: Node, paths: seq<Path>)
    ensures SubseqOf(Usable(fs, paths), paths)
    ensures forall p :: p in Usable(fs, paths) <==> p in paths && Decodes(fs, p)
    decreases |paths|
  {
    if paths != [] {
      var init, last := paths[..|paths| - 1], paths[|paths| - 1];
      UsableSpec(fs, init);
      assert paths == init + [last];
      var u := Usable(fs, init);
      if Decodes(fs, last) {
        SubseqOfExtend(u, init, last);
      } else {
        assert Usable(fs, paths) == u;
        if u != [] {
          assert u[|u| - 1] in u;
        }
      }
    }
  }

  // ---------------------------------------------------------------------
  // The conversion as a whole

  /** If the PDF already exists in an existing output directory, the call
      returns True and changes nothing, whatever the input folder is (even a
      missing one) and whether or not a save would succeed. */
  lemma SkipWhenPdfExists(fs: Node, input: Path, output: Path, pdfName: string, now: int, saveOk: bool)
    requires IsDir(fs, output) && Exists(fs, output + [PdfFileName(pdfName)])
    ensures PackSpec(fs, input, output, pdfName, now, saveOk) == Packing(AlreadyExists, fs, None)
  {
    MakeDirsExisting(fs, output, now);
  }

  /** The call returns True exactly when, once the output directory exists,
      the PDF is already there or the input folder can be listed, at least
      one discovered image opens and the save succeeds. */
  lemma PackSucceeds(fs: Node, input: Path, output: Path, pdfName: string, now: int, saveOk: bool)
    requires MakeDirs(fs, output, now).Some?
    ensures var fs1 := MakeDirs(fs, output, now).value;
      PackSpec(fs, input, output, pdfName, now, saveOk).status.Succeeded() <==>
        || Exists(fs1, output + [PdfFileName(pdfName)])
        || (&& DiscoverImages(fs1, input).Some?
            && (exists p :: p in DiscoverImages(fs1, input).value && Decodes(fs1, p))
            && saveOk)
  {
    var fs1 := MakeDirs(fs, output, now).value;
    match DiscoverImages(fs1, input)
    case None =>
    case Some(paths) =>
      UsableSpec(fs1, paths);
      var u := Usable(fs1, paths);
      if u != [] {
        assert u[0] in u;
      }
  }

  /** Only a successful save writes a file. Every other ending leaves the
      file system as it was, apart from the output directory `os.makedirs`
      may have created. A save writes a new PDF, named after the stem of
      `pdf_name`, into the output directory; its pages are the discovered
      images that open, in order, and there is at least one. */
  lemma PackEffects(fs: Node, input: Path, output: Path, pdfName: string, now: int, saveOk: bool)
    ensures var r := PackSpec(fs, input, output, pdfName, now, saveOk);
      r.status != Written ==> r.pages.None? && (r.fs == fs || MakeDirs(fs, output, now) == Some(r.fs))
    ensures var r := PackSpec(fs, input, output, pdfName, now, saveOk);
      r.status == Written ==>
        && MakeDirs(fs, output, now).Some?
        && var fs1 := MakeDirs(fs, output, now).value;
        && !Exists(fs1, output + [PdfFileName(pdfName)])
        && r.fs == AddChild(fs1, output, PdfNode(pdfName, now))
        && Find(r.fs, output + [PdfFileName(pdfName)]) == Some(PdfNode(pdfName, now))
        && DiscoverImages(fs1, input).Some?
        && r.pages.Some? && r.pages.value != []
        && SubseqOf(r.pages.value, DiscoverImages(fs1, input).value)
        && (forall p :: p in r.pages.value <==> p in DiscoverImages(fs1, input).value && Decodes(fs1, p))
  {
    var r := PackSpec(fs, input, output, pdfName, now, saveOk);
    if r.status == Written {
      var fs1 := MakeDirs(fs, output, now).value;
      MakeDirsMakes(fs, output, now);
      AddChildWrites(fs1, output, PdfNode(pdfName, now));
      UsableSpec(fs1, DiscoverImages(fs1, input).value);
    }
  }

  /** Once the output directory exists, the clock only stamps what is
      written, so a run that writes nothing ends the same way at any time. */
  lemma PackAtAnotherTime(fs1: Node, input: Path, output: Path, pdfName: string, now: int, later: int, saveOk: bool)
    requires PackIn(fs1, input, output, pdfName, now, saveOk).status != Written
    ensures PackIn(fs1, input, output, pdfName, later, saveOk) == PackIn(fs1, input, output, pdfName, now, saveOk)
  {
  }

  /** Once the output directory exists, a second call after the first
      changes nothing and ends as `PackIdempotent` says. */
  lemma RerunInOutputDir(fs1: Node, input: Path, output: Path, pdfName: string, now: int, later: int, saveOk: bool)
    requires IsDir(fs1, output)
    ensures var first := PackIn(fs1, input, output, pdfName, now, saveOk);
      var second := PackSpec(first.fs, input, output, pdfName, later, saveOk);
      && second.fs == first.fs && second.pages.None?
      && (first.status.Succeeded() ==> second.status == AlreadyExists)
      && (!first.status.Succeeded() ==> second.status == first.status)
  {
    var first := PackIn(fs1, input, output, pdfName, now, saveOk);
    if first.status == Written {
      assert !Exists(fs1, output + [PdfFileName(pdfName)]);
      assert first.fs == AddChild(fs1, output, PdfNode(pdfName, now));
      RerunAfterWrite(fs1, input, output, pdfName, now, later, saveOk);
    } else {
      assert first.fs == fs1;
      MakeDirsExisting(fs1, output, later);
      PackAtAnotherTime(fs1, input, output, pdfName, now, later, saveOk);
    }
  }

  /** A call after the one that wrote the PDF finds it and skips. */
  lemma RerunAfterWrite(fs1: Node, input: Path, output: Path, pdfName: string, now: int, later: int, saveOk: bool)
    requires IsDir(fs1, output) && !Exists(fs1, output + [PdfFileName(pdfName)])
    ensures var written := AddChild(fs1, output, PdfNode(pdfName, now));
      PackSpec(written, input, output, pdfName, later, saveOk) == Packing(AlreadyExists, written, None)
  {
    AddChildWrites(fs1, output, PdfNode(pdfName, now));
    SkipWhenPdfExists(AddChild(fs1, output, PdfNode(pdfName, now)), input, output, pdfName, later, saveOk);
  }

  /** Running the conversion a second time changes nothing and reports
      success exactly when the first run did: after a success the PDF is
      found and skipped, after a failure the same failure recurs. */
  lemma PackIdempotent(fs: Node, input: Path, output: Path, pdfName: string, now: int, later: int, saveOk: bool)
    ensures var first := PackSpec(fs, input, output, pdfName, now, saveOk);
      var second := PackSpec(first.fs, input, output, pdfName, later, saveOk);
      && second.fs == first.fs && second.pages.None?
      && (first.status.Succeeded() ==> second.status == AlreadyExists)
      && (!first.status.Succeeded() ==> second.status == first.status)
  {
    if MakeDirs(fs, output, now).None? {
      if fs.Dir? {
        MakeDirsFails(fs, output, now);
        MakeDirsFails(fs, output, later);
      }
    } else {
      MakeDirsMakes(fs, output, now);
      RerunInOutputDir(MakeDirs(fs, output, now).value, input, output, pdfName, now, later, saveOk);
    }
  }

  /** The PDF of an album lands beside the album directory by default and
      carries the album directory's name without its extension. */
  lemma AlbumPdfBesideAlbum(fs: Node, albumDir: Path, now: int, saveOk: bool)
    ensures var r := AlbumSpec(fs, albumDir, None, now, saveOk);
      && (!Exists(fs, albumDir) ==> r == Packing(AlbumMissing, fs, None))
      && (r.status == Written ==>
            Find(r.fs, Dirname(albumDir) + [Stem(Basename(albumDir)) + ".pdf"]).Some?)
  {
    if Exists(fs, albumDir) {
      PackEffects(fs, albumDir, Dirname(albumDir), Basename(albumDir), now, saveOk);
    }
  }

  /** The PDF name drops whatever `splitext` takes for an extension: an album
      directory "Vol.1" gives "Vol.pdf", the same name as "Vol.2" gives. */
  lemma DottedAlbumName()
    ensures PdfFileName("Vol.1") == "Vol.pdf"
    ensures PdfFileName("Vol.1") != "Vol.1" + ".pdf"
    ensures PdfFileName("Vol.1") == PdfFileName("Vol.2")
  {
    assert RFind("Vol.1", '/') == -1;
    assert RFind("Vol.1", '.') == 3;
    assert "Vol.1"[0] != '.';
    assert RFind("Vol.2", '/') == -1;
    assert RFind("Vol.2", '.') == 3;
    assert "Vol.2"[0] != '.';
  }

  /** A name without a dot keeps its whole name: "album" gives "album.pdf". */
  lemma UndottedName(name: string)
    requires forall k :: 0 <= k < |name| ==> name[k] != '.'
    ensures PdfFileName(name) == name + ".pdf"
  {
  }
}
