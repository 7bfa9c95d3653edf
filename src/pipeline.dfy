/** What happens around the locator: the part of the download worker
    (`download_and_convert`) that runs once the album has been downloaded,
    and the `convert_album_to_pdf_tool` tool.

    The worker looks at the file system twice: the first pass runs on the
    tree `fsFirst` at time `now`; the existence check, the fallback and the
    conversion run on `fsLater` at time `later`, since other downloads may
    change the directory in between. */
module Pipeline {
  import opened Wrappers
  import opened Names
  import opened FileTree
  import opened Packager
  import opened Ordering
  import opened Locator

  /** How a run of the download worker ends, after the download itself. */
  datatype Outcome =
    | Aborted                 // an exception ended the run (the handlers at its end)
    | ConversionNotRequested  // `convert_to_pdf` was False
    | AlbumNotFound           // "could not find the album's download directory"
    | Converted(dir: Path, status: Status, pdfReported: Option<bool>)
      // `pdfReported`: after a success, whether the check for
      // `base/<basename(dir)>.pdf` found that file; None after a failure

  datatype Run = Run(outcome: Outcome, fs: Node)

  /** `convert_album_to_pdf(dir, base)` followed by the check for the PDF. */
  function ConvertFound(fs: Node, base: Path, dir: Path, now: int, saveOk: bool): Run {
    var r := AlbumSpec(fs, dir, Some(base), now, saveOk);
    if r.status == MakeDirsRaised then Run(Aborted, r.fs)
    else
      var reported := if r.status.Succeeded() then Some(Exists(r.fs, base + [Basename(dir) + ".pdf"])) else None;
      Run(Converted(dir, r.status, reported), r.fs)
  }

  /** Where the run goes after the first pass. */
  datatype Decision = Abort | SkipConversion | ReportNotFound | ConvertDir(dir: Path)

  /** The directory the run converts: the first pass's choice when it exists
      by then, otherwise the fallback's. */
  function Decide(fsFirst: Node, fsLater: Node, base: Path, title: string, albumId: string,
                  now: int, later: int, convertToPdf: bool): Decision
  {
    match FirstPassSpec(fsFirst, base, title, albumId, now)
    case None => Abort
    case Some(albumDir) =>
      if !convertToPdf then SkipConversion
      else if Exists(fsLater, albumDir) then ConvertDir(albumDir)
      else match FallbackSpec(fsLater, base, title, albumId, later)
        case ListingRaised => Abort
        case NotFound => ReportNotFound
        case Found(dir) => ConvertDir(dir)
  }

  /** The run after the download: first pass, then (when asked to convert)
      the existence check, the fallback if needed, and the conversion. */
  function RunSpec(fsFirst: Node, fsLater: Node, base: Path, title: string, albumId: string,
                   now: int, later: int, convertToPdf: bool, saveOk: bool): Run
  {
    match Decide(fsFirst, fsLater, base, title, albumId, now, later, convertToPdf)
    case Abort => Run(Aborted, fsLater)
    case SkipConversion => Run(ConversionNotRequested, fsLater)
    case ReportNotFound => Run(AlbumNotFound, fsLater)
    case ConvertDir(dir) => ConvertFound(fsLater, base, dir, later, saveOk)
  }

  method ConvertAndCheck(fs: Node, base: Path, dir: Path, now: int, saveOk: bool) returns (run: Run)
    ensures run == ConvertFound(fs, base, dir, now, saveOk)
  {
    var status, fs', _ := ConvertAlbumToPdf(fs, dir, Some(base), now, saveOk);
    if status == MakeDirsRaised {
      return Run(Aborted, fs');
    }
    var reported: Option<bool> := None;
    if status.Succeeded() {
      var pdfPath := base + [Basename(dir) + ".pdf"];
      reported := Some(Exists(fs', pdfPath));
    }
    return Run(Converted(dir, status, reported), fs');
  }

  /** The body of `download_and_convert` after the download. */
  method DownloadAndConvert(fsFirst: Node, fsLater: Node, base: Path, title: string, albumId: string,
                            now: int, later: int, convertToPdf: bool, saveOk: bool)
    returns (run: Run)
    ensures run == RunSpec(fsFirst, fsLater, base, title, albumId, now, later, convertToPdf, saveOk)
  {
    ghost var decision := Decide(fsFirst, fsLater, base, title, albumId, now, later, convertToPdf);
    var located := FirstPass(fsFirst, base, title, albumId, now);
    if located.None? {
      assert decision == Abort;
      return Run(Aborted, fsLater);
    }
    var albumDir := located.value;
    if !convertToPdf {
      assert decision == SkipConversion;
      return Run(ConversionNotRequested, fsLater);
    }
    if Exists(fsLater, albumDir) {
      assert decision == ConvertDir(albumDir);
      run := ConvertAndCheck(fsLater, base, albumDir, later, saveOk);
      return;
    }
    // the directory is missing: look for a likely one
    var foundDir := Fallback(fsLater, base, title, albumId, later);
    assert decision == match foundDir
      case ListingRaised => Abort
      case NotFound => ReportNotFound
      case Found(dir) => ConvertDir(dir);
    match foundDir
    case ListingRaised => return Run(Aborted, fsLater);
    case NotFound => return Run(AlbumNotFound, fsLater);
    case Found(dir) => run := ConvertAndCheck(fsLater, base, dir, later, saveOk);
  }

  /** When nothing changed between the passes and the clock did not go back,
      the run converts the first pass's directory if it exists and otherwise
      reports the album as not found: the fallback never changes the
      outcome. */
  lemma UnchangedTreeSkipsFallback(fs: Node, base: Path, title: string, albumId: string,
                                   now: int, later: int, saveOk: bool)
    requires now <= later && FirstPassSpec(fs, base, title, albumId, now).Some?
    ensures var d := FirstPassSpec(fs, base, title, albumId, now).value;
      var run := RunSpec(fs, fs, base, title, albumId, now, later, true, saveOk);
      && (Exists(fs, d) ==> run == ConvertFound(fs, base, d, later, saveOk))
      && (!Exists(fs, d) ==> run == Run(AlbumNotFound, fs))
  {
    var d := FirstPassSpec(fs, base, title, albumId, now).value;
    if !Exists(fs, d) {
      FallbackFindsNothingNew(fs, base, title, albumId, now, later);
    }
  }

  /** Every directory the run decides to convert exists by then and lies
      directly in the download directory. */
  lemma DecidedDirInBase(fsFirst: Node, fsLater: Node, base: Path, title: string, albumId: string,
                         now: int, later: int, convertToPdf: bool)
    requires Decide(fsFirst, fsLater, base, title, albumId, now, later, convertToPdf).ConvertDir?
    ensures var d := Decide(fsFirst, fsLater, base, title, albumId, now, later, convertToPdf).dir;
      |d| == |base| + 1 && d[..|base|] == base && Exists(fsLater, d)
  {
    var albumDir := FirstPassSpec(fsFirst, base, title, albumId, now).value;
    if Exists(fsLater, albumDir) {
      FirstPassChoice(fsFirst, base, title, albumId, now);
    } else {
      var items := ListDir(fsLater, base).value;
      var cands := Candidates(fsLater, base, items);
      var sorted := SortBy(cands, NewestFirst);
      var k := FirstAccepted(fsLater, base, title, albumId, later, sorted);
      SortByMembers(cands, NewestFirst);
      assert sorted[k] in cands;
    }
  }

  /** The check after a successful conversion of `base/name` looks for
      `base/<name>.pdf`, but the PDF is named after the stem of `name`: when
      `name` has an extension ("Vol.1"), the freshly written PDF is reported
      as missing. */
  lemma CheckMissesDottedName(fs: Node, base: Path, name: string, now: int, saveOk: bool)
    requires Exists(fs, base + [name]) && Ext(name) != [] && !Exists(fs, base + [name + ".pdf"])
    requires var o := ConvertFound(fs, base, base + [name], now, saveOk).outcome;
      o.Converted? && o.status == Written
    ensures ConvertFound(fs, base, base + [name], now, saveOk).outcome.pdfReported == Some(false)
  {
    var dir := base + [name];
    assert Basename(dir) == name;
    var r := PackSpec(fs, dir, base, name, now, saveOk);
    assert AlbumSpec(fs, dir, Some(base), now, saveOk) == r;
    PackEffects(fs, dir, base, name, now, saveOk);
    ParentIsDir(fs, base, name);
    MakeDirsExisting(fs, base, now);
    assert r.fs == AddChild(fs, base, PdfNode(name, now));
    assert |Stem(name)| < |name| by {
      assert Stem(name) + Ext(name) == name;
    }
    assert PdfNode(name, now).name != name + ".pdf";
    AddChildKeeps(fs, base, PdfNode(name, now), name + ".pdf");
  }

  /** So a whole run that converts a directory whose name has an extension
      reports its new PDF as missing. */
  lemma DottedNameReportedMissing(fsFirst: Node, fsLater: Node, base: Path, title: string, albumId: string,
                                  now: int, later: int, saveOk: bool)
    requires var o := RunSpec(fsFirst, fsLater, base, title, albumId, now, later, true, saveOk).outcome;
      && o.Converted? && o.status == Written
      && Ext(Basename(o.dir)) != []
      && !Exists(fsLater, base + [Basename(o.dir) + ".pdf"])
    ensures RunSpec(fsFirst, fsLater, base, title, albumId, now, later, true, saveOk).outcome.pdfReported == Some(false)
  {
    var decision := Decide(fsFirst, fsLater, base, title, albumId, now, later, true);
    assert decision.ConvertDir?;
    var d := decision.dir;
    assert RunSpec(fsFirst, fsLater, base, title, albumId, now, later, true, saveOk)
        == ConvertFound(fsLater, base, d, later, saveOk);
    DecidedDirInBase(fsFirst, fsLater, base, title, albumId, now, later, true);
    LastSplit(d, |base|);
    assert d == base + [Basename(d)];
    CheckMissesDottedName(fsLater, base, Basename(d), later, saveOk);
  }


  // ---------------------------------------------------------------------
  // The conversion tool

  /** The replies of `convert_album_to_pdf_tool`. */
  datatype ToolReply =
    | DirectoryMissing(dir: Path)  // "album directory does not exist"
    | ConversionSucceeded
    | ConversionFailed
    | ConversionRaised             // the error reply for an exception

  datatype ToolRun = ToolRun(reply: ToolReply, fs: Node)

  /** The album directory the tool works on: the given one, or by default
      `base/album_id`. */
  function ToolAlbumDir(base: Path, albumId: string, albumDir: Option<Path>): Path {
    if albumDir.None? then base + [albumId] else albumDir.value
  }

  function ToolSpec(fs: Node, base: Path, albumId: string, albumDir: Option<Path>, now: int, saveOk: bool): ToolRun {
    var dir := ToolAlbumDir(base, albumId, albumDir);
    if !Exists(fs, dir) then ToolRun(DirectoryMissing(dir), fs)
    else
      var r := AlbumSpec(fs, dir, Some(Dirname(dir)), now, saveOk);
      if r.status == MakeDirsRaised then ToolRun(ConversionRaised, r.fs)
      else if r.status.Succeeded() then ToolRun(ConversionSucceeded, r.fs)
      else ToolRun(ConversionFailed, r.fs)
  }

  /** `convert_album_to_pdf_tool`. */
  method ConvertAlbumToPdfTool(fs: Node, base: Path, albumId: string, albumDir: Option<Path>, now: int, saveOk: bool)
    returns (run: ToolRun)
    ensures run == ToolSpec(fs, base, albumId, albumDir, now, saveOk)
  {
    var dir := if albumDir.None? then base + [albumId] else albumDir.value;
    if !Exists(fs, dir) {
      return ToolRun(DirectoryMissing(dir), fs);
    }
    var baseOutputDir := Dirname(dir);
    var status, fs', _ := ConvertAlbumToPdf(fs, dir, Some(baseOutputDir), now, saveOk);
    if status == MakeDirsRaised {
      return ToolRun(ConversionRaised, fs');
    }
    return ToolRun(if status.Succeeded() then ConversionSucceeded else ConversionFailed, fs');
  }

  /** Without an explicit directory the tool converts `base/album_id` and
      writes `base/<stem of album_id>.pdf`; a missing directory is reported
      by its path and changes nothing. */
  lemma ToolDefaultDirectory(fs: Node, base: Path, albumId: string, now: int, saveOk: bool)
    ensures var run := ToolSpec(fs, base, albumId, None, now, saveOk);
      && (!Exists(fs, base + [albumId]) ==> run == ToolRun(DirectoryMissing(base + [albumId]), fs))
      && ((Exists(fs, base + [albumId]) && PackSpec(fs, base + [albumId], base, albumId, now, saveOk).status == Written)
            ==> run.reply == ConversionSucceeded && Find(run.fs, base + [PdfFileName(albumId)]) == Some(PdfNode(albumId, now)))
  {
    var dir := base + [albumId];
    assert Dirname(dir) == base && Basename(dir) == albumId;
    if Exists(fs, dir) {
      PackEffects(fs, dir, base, albumId, now, saveOk);
    }
  }
}
