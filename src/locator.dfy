/** The album-directory locator of the download worker: after a download,
    find the directory the album's images were written to under the
    download directory `base`, knowing the album's title and id.

    A first pass looks for `base/title`, then for a directory related to
    the title, then for one that mentions the id or is recent. When the
    directory it settles on does not exist (later), a fallback pass tries
    the directories newest first. The clock is a parameter in whole
    seconds. */
module Locator {
  import opened Wrappers
  import opened Names
  import opened Ordering
  import opened FileTree
  import opened Packager

  /** The age limit, in minutes, both passes use for "recent". */
  const RecentMinutes: int := 30

  /** The age in minutes of something created at `ctime`, as the source
      computes it: `(time.time() - ctime) / 60`. */
  function AgeMinutes(now: int, ctime: int): real {
    (now - ctime) as real / 60.0
  }

  /** `is_recent_directory(p, max_age_minutes)`: the directory's creation
      time can be read and it is at most that many minutes old. */
  predicate IsRecentDirectory(fs: Node, p: Path, now: int, maxAgeMinutes: int) {
    match GetCtime(fs, p)
    case None => false
    case Some(c) => AgeMinutes(now, c) <= maxAgeMinutes as real
  }

  /** Recent means created at most `maxAgeMinutes * 60` seconds ago. */
  lemma RecentWithinSeconds(fs: Node, p: Path, now: int, maxAgeMinutes: int)
    ensures IsRecentDirectory(fs, p, now, maxAgeMinutes) <==>
      GetCtime(fs, p).Some? && now - GetCtime(fs, p).value <= maxAgeMinutes * 60
  {
    match GetCtime(fs, p)
    case None =>
    case Some(c) =>
      assert AgeMinutes(now, c) * 60.0 == (now - c) as real;
  }

  /** What is recent at a later time was already recent earlier. */
  lemma RecentEarlier(fs: Node, p: Path, now: int, later: int, maxAgeMinutes: int)
    requires now <= later && IsRecentDirectory(fs, p, later, maxAgeMinutes)
    ensures IsRecentDirectory(fs, p, now, maxAgeMinutes)
  {
    RecentWithinSeconds(fs, p, now, maxAgeMinutes);
    RecentWithinSeconds(fs, p, later, maxAgeMinutes);
  }

  // ---------------------------------------------------------------------
  // First pass

  /** The name equals the title, or one of the two contains the other. */
  predicate TitleMatch(name: string, title: string) {
    name == title || In(title, name) || In(name, title)
  }

  /** The entry `e` of `base` is a directory related to the title. */
  predicate TitleCandidate(fs: Node, base: Path, title: string, e: string) {
    IsDir(fs, base + [e]) && TitleMatch(e, title)
  }

  /** The entry `e` of `base` is a directory that contains the album id or
      is recent. */
  predicate IdOrRecentCandidate(fs: Node, base: Path, albumId: string, now: int, e: string) {
    IsDir(fs, base + [e]) && (In(albumId, e) || IsRecentDirectory(fs, base + [e], now, RecentMinutes))
  }

  /** The position of the first title-related directory, or -1. */
  function FirstTitleIndex(fs: Node, base: Path, title: string, entries: seq<string>): (r: int)
    ensures -1 <= r < |entries|
    ensures r >= 0 ==> TitleCandidate(fs, base, title, entries[r])
    ensures forall k :: 0 <= k < |entries| && (r < 0 || k < r) ==> !TitleCandidate(fs, base, title, entries[k])
  {
    if entries == [] then -1
    else if TitleCandidate(fs, base, title, entries[0]) then 0
    else
      var r := FirstTitleIndex(fs, base, title, entries[1..]);
      assert forall k :: 1 <= k < |entries| ==> entries[k] == entries[1..][k - 1];
      if r < 0 then -1 else r + 1
  }

  /** The position of the first directory mentioning the id or recent, or -1. */
  function FirstIdOrRecentIndex(fs: Node, base: Path, albumId: string, now: int, entries: seq<string>): (r: int)
    ensures -1 <= r < |entries|
    ensures r >= 0 ==> IdOrRecentCandidate(fs, base, albumId, now, entries[r])
    ensures forall k :: 0 <= k < |entries| && (r < 0 || k < r) ==> !IdOrRecentCandidate(fs, base, albumId, now, entries[k])
  {
    if entries == [] then -1
    else if IdOrRecentCandidate(fs, base, albumId, now, entries[0]) then 0
    else
      var r := FirstIdOrRecentIndex(fs, base, albumId, now, entries[1..]);
      assert forall k :: 1 <= k < |entries| ==> entries[k] == entries[1..][k - 1];
      if r < 0 then -1 else r + 1
  }

  /** The directory the first pass settles on, or None when a listing raises
      (which ends the whole run). With no download directory, or nothing
      matching, it is `base/title` whether that exists or not. */
  function FirstPassSpec(fs: Node, base: Path, title: string, albumId: string, now: int): Option<Path> {
    var titleDir := base + [title];
    if !Exists(fs, base) then Some(titleDir)
    else match ListDir(fs, base)
      case None => None
      case Some(entries) =>
        if Exists(fs, titleDir) then
          if ListDir(fs, titleDir).None? then None else Some(titleDir)
        else
          var t := FirstTitleIndex(fs, base, title, entries);
          if t >= 0 then Some(base + [entries[t]])
          else
            var j := FirstIdOrRecentIndex(fs, base, albumId, now, entries);
            if j >= 0 then Some(base + [entries[j]]) else Some(titleDir)
  }

  /** The first loop of the first pass: `album_dir` becomes the first entry
      that is a directory equal to, inside or containing the title, and
      `found_by_title` says whether there was one. */
  method FindByTitle(fs: Node, base: Path, title: string, entries: seq<string>)
    returns (foundByTitle: bool, albumDir: Path)
    ensures var t := FirstTitleIndex(fs, base, title, entries);
      && foundByTitle == (t >= 0)
      && albumDir == if t >= 0 then base + [entries[t]] else base + [title]
  {
    albumDir := base + [title];
    foundByTitle := false;
    var i := 0;
    while i < |entries|
      invariant 0 <= i <= |entries|
      invariant forall k :: 0 <= k < i ==> !TitleCandidate(fs, base, title, entries[k])
      invariant !foundByTitle && albumDir == base + [title]
    {
      var entryPath := base + [entries[i]];
      if IsDir(fs, entryPath) {
        if entries[i] == title {
          albumDir := entryPath;
          foundByTitle := true;
          break;
        } else if In(title, entries[i]) || In(entries[i], title) {
          albumDir := entryPath;
          foundByTitle := true;
          break;
        }
      }
      i := i + 1;
    }
  }

  /** The second loop of the first pass: `album_dir` becomes the first entry
      that is a directory whose name contains the album id or that is
      recent, and stays `dir` when there is none. */
  method FindByIdOrRecent(fs: Node, base: Path, albumId: string, now: int, entries: seq<string>, dir: Path)
    returns (albumDir: Path)
    ensures var j := FirstIdOrRecentIndex(fs, base, albumId, now, entries);
      albumDir == if j >= 0 then base + [entries[j]] else dir
  {
    albumDir := dir;
    var i := 0;
    while i < |entries|
      invariant 0 <= i <= |entries|
      invariant forall k :: 0 <= k < i ==> !IdOrRecentCandidate(fs, base, albumId, now, entries[k])
      invariant albumDir == dir
    {
      var entryPath := base + [entries[i]];
      if IsDir(fs, entryPath) {
        if In(albumId, entries[i]) {
          albumDir := entryPath;
          break;
        } else if IsRecentDirectory(fs, entryPath, now, RecentMinutes) {
          albumDir := entryPath;
          break;
        }
      }
      i := i + 1;
    }
  }

  /** The first pass of `download_and_convert`: the title loop, then, when
      it finds nothing, the id-or-recent loop, each stopping at its first
      hit. */
  method FirstPass(fs: Node, base: Path, title: string, albumId: string, now: int) returns (albumDir: Option<Path>)
    ensures albumDir == FirstPassSpec(fs, base, title, albumId, now)
  {
    var dir := base + [title];
    if Exists(fs, base) {
      var listing := ListDir(fs, base);
      if listing.None? {
        return None;
      }
      var entries := listing.value;
      if Exists(fs, dir) {
        if ListDir(fs, dir).None? {
          return None;
        }
      } else {
        var foundByTitle;
        foundByTitle, dir := FindByTitle(fs, base, title, entries);
        if !foundByTitle {
          dir := FindByIdOrRecent(fs, base, albumId, now, entries, dir);
        }
      }
    }
    return Some(dir);
  }

  /** Every directory the first pass settles on that exists is `base/title`
      or a directory listed in `base` that is related to the title, contains
      the album id, or is recent. */
  lemma FirstPassChoice(fs: Node, base: Path, title: string, albumId: string, now: int)
    requires FirstPassSpec(fs, base, title, albumId, now).Some?
    ensures var d := FirstPassSpec(fs, base, title, albumId, now).value;
      || d == base + [title]
      || (&& ListDir(fs, base).Some?
          && exists e :: e in ListDir(fs, base).value && d == base + [e] &&
               (TitleCandidate(fs, base, title, e) || IdOrRecentCandidate(fs, base, albumId, now, e)))
  {
  }

  /** An earlier-listed recent directory wins over a later one that carries
      the album id: with no title match, the first pass stops at the first
      directory that passes either test. */
  lemma RecentBeforeIdMatch(fs: Node, base: Path, title: string, albumId: string, now: int, i: int, j: int)
    requires ListDir(fs, base).Some? && !Exists(fs, base + [title])
    requires var entries := ListDir(fs, base).value;
      && 0 <= i < j < |entries|
      && (forall k :: 0 <= k < |entries| ==> !TitleCandidate(fs, base, title, entries[k]))
      && (forall k :: 0 <= k < i ==> !IdOrRecentCandidate(fs, base, albumId, now, entries[k]))
      && IsDir(fs, base + [entries[i]]) && IsRecentDirectory(fs, base + [entries[i]], now, RecentMinutes)
      && IsDir(fs, base + [entries[j]]) && In(albumId, entries[j])
    ensures FirstPassSpec(fs, base, title, albumId, now) == Some(base + [ListDir(fs, base).value[i]])
  {
    var entries := ListDir(fs, base).value;
    assert FirstIdOrRecentIndex(fs, base, albumId, now, entries) == i;
  }

  // ---------------------------------------------------------------------
  // Fallback pass

  /** An entry of `dir_candidates`: a directory whose creation time could be
      read. */
  datatype Candidate = Candidate(name: string, ctime: int)

  /** The names of candidates, in order. */
  function CandidateNames(cands: seq<Candidate>): (r: seq<string>)
    ensures |r| == |cands| && forall k :: 0 <= k < |r| ==> r[k] == cands[k].name
  {
    seq(|cands|, k requires 0 <= k < |cands| => cands[k].name)
  }

  /** `dir_candidates` before sorting: exactly the directories of the listing
      `names` whose creation time can be read, each with that time, in
      listing order. */
  function Candidates(fs: Node, base: Path, names: seq<string>): (r: seq<Candidate>)
    ensures forall c :: c in r ==>
      c.name in names && IsDir(fs, base + [c.name]) && GetCtime(fs, base + [c.name]) == Some(c.ctime)
    ensures forall n :: n in names && IsDir(fs, base + [n]) && GetCtime(fs, base + [n]).Some? ==>
      Candidate(n, GetCtime(fs, base + [n]).value) in r
    ensures SubseqOf(CandidateNames(r), names)
    decreases |names|
  {
    if names == [] then []
    else
      var init, last := names[..|names| - 1], names[|names| - 1];
      assert names == init + [last];
      var c := GetCtime(fs, base + [last]);
      var r := Candidates(fs, base, init);
      if IsDir(fs, base + [last]) && c.Some? then
        assert CandidateNames(r + [Candidate(last, c.value)]) == CandidateNames(r) + [last];
        SubseqOfExtend(CandidateNames(r), init, last);
        r + [Candidate(last, c.value)]
      else
        SubseqOfSnoc(CandidateNames(r), init, last);
        r
  }

  /** The sort key of `sort(key=creation_time, reverse=True)`: Python's
      reversed sort is stable, so it is the ascending stable sort on the
      negated time. */
  function NewestFirst(c: Candidate): SortKey {
    Num(-c.ctime)
  }

  /** `dir_candidates` after sorting: newest first, ties in listing order. */
  lemma NewestFirstOrder(cands: seq<Candidate>)
    ensures var r := SortBy(cands, NewestFirst);
      && multiset(r) == multiset(cands)
      && (forall i, j :: 0 <= i < j < |r| ==> r[i].ctime >= r[j].ctime)
      && (forall k :: WithKey(r, NewestFirst, k) == WithKey(cands, NewestFirst, k))
  {
    SortByPermutation(cands, NewestFirst);
    SortBySorted(cands, NewestFirst);
    forall k ensures WithKey(SortBy(cands, NewestFirst), NewestFirst, k) == WithKey(cands, NewestFirst, k) {
      SortByStable(cands, NewestFirst, k);
    }
  }

  /** The `any(...)` test: some entry of the listing `contents` of `dir` is a
      file with an image extension. */
  predicate HasImageFile(fs: Node, dir: Path, contents: seq<string>) {
    exists f :: f in contents && IsFile(fs, dir + [f]) && IsImageName(f)
  }

  /** The fallback accepts a candidate whose name equals or is related to the
      title, contains the album id, or that is at most 30 minutes old and
      can be listed and holds an image file directly inside. */
  predicate FallbackAccepts(fs: Node, base: Path, title: string, albumId: string, now: int, c: Candidate) {
    || c.name == title
    || In(title, c.name) || In(c.name, title)
    || In(albumId, c.name)
    || (&& AgeMinutes(now, c.ctime) <= RecentMinutes as real
        && ListDir(fs, base + [c.name]).Some?
        && HasImageFile(fs, base + [c.name], ListDir(fs, base + [c.name]).value))
  }

  /** The position of the first candidate the fallback accepts, or -1. */
  function FirstAccepted(fs: Node, base: Path, title: string, albumId: string, now: int, cands: seq<Candidate>): (r: int)
    ensures -1 <= r < |cands|
    ensures r >= 0 ==> FallbackAccepts(fs, base, title, albumId, now, cands[r])
    ensures forall k :: 0 <= k < |cands| && (r < 0 || k < r) ==> !FallbackAccepts(fs, base, title, albumId, now, cands[k])
  {
    if cands == [] then -1
    else if FallbackAccepts(fs, base, title, albumId, now, cands[0]) then 0
    else
      var r := FirstAccepted(fs, base, title, albumId, now, cands[1..]);
      assert forall k :: 1 <= k < |cands| ==> cands[k] == cands[1..][k - 1];
      if r < 0 then -1 else r + 1
  }

  /** How the fallback ends: a directory, nothing (including when the
      download directory is missing), or a listing that raised and ended
      the run. */
  datatype FallbackResult = Found(dir: Path) | NotFound | ListingRaised

  function FallbackSpec(fs: Node, base: Path, title: string, albumId: string, now: int): FallbackResult {
    if !Exists(fs, base) then NotFound
    else match ListDir(fs, base)
      case None => ListingRaised
      case Some(items) =>
        var cands := SortBy(Candidates(fs, base, items), NewestFirst);
        var k := FirstAccepted(fs, base, title, albumId, now, cands);
        if k >= 0 then Found(base + [cands[k].name]) else NotFound
  }

  /** In a list ordered newest first, no candidate newer than the first
      accepted one is accepted, and with none accepted, none is. */
  lemma FirstAcceptedIsNewest(fs: Node, base: Path, title: string, albumId: string, now: int, sorted: seq<Candidate>)
    requires forall i, j :: 0 <= i < j < |sorted| ==> sorted[i].ctime >= sorted[j].ctime
    ensures var k := FirstAccepted(fs, base, title, albumId, now, sorted);
      forall c :: c in sorted && (k < 0 || c.ctime > sorted[k].ctime) ==>
        !FallbackAccepts(fs, base, title, albumId, now, c)
  {
    var k := FirstAccepted(fs, base, title, albumId, now, sorted);
    forall c | c in sorted && (k < 0 || c.ctime > sorted[k].ctime)
      ensures !FallbackAccepts(fs, base, title, albumId, now, c)
    {
      var j :| 0 <= j < |sorted| && sorted[j] == c;
      assert k < 0 || j < k;
    }
  }

  /** The fallback picks a directory it accepts, and no directory with a
      newer creation time is accepted; when it picks nothing in a listable
      download directory, no candidate is accepted at all. */
  lemma FallbackNewestMatch(fs: Node, base: Path, title: string, albumId: string, now: int)
    requires Exists(fs, base) && ListDir(fs, base).Some?
    ensures var cands := Candidates(fs, base, ListDir(fs, base).value);
      match FallbackSpec(fs, base, title, albumId, now)
      case Found(d) =>
        exists c :: c in cands && d == base + [c.name] && FallbackAccepts(fs, base, title, albumId, now, c) &&
          forall c' :: c' in cands && c'.ctime > c.ctime ==> !FallbackAccepts(fs, base, title, albumId, now, c')
      case NotFound => forall c :: c in cands ==> !FallbackAccepts(fs, base, title, albumId, now, c)
      case ListingRaised => false
  {
    var cands := Candidates(fs, base, ListDir(fs, base).value);
    var sorted := SortBy(cands, NewestFirst);
    NewestFirstOrder(cands);
    SortByMembers(cands, NewestFirst);
    FirstAcceptedIsNewest(fs, base, title, albumId, now, sorted);
    var k := FirstAccepted(fs, base, title, albumId, now, sorted);
    if k >= 0 {
      assert FallbackSpec(fs, base, title, albumId, now) == Found(base + [sorted[k].name]);
      assert sorted[k] in cands;
    } else {
      assert FallbackSpec(fs, base, title, albumId, now) == NotFound;
    }
  }

  /** The loop that collects `dir_candidates`. */
  method CollectCandidates(fs: Node, base: Path, items: seq<string>) returns (dirCandidates: seq<Candidate>)
    ensures dirCandidates == Candidates(fs, base, items)
  {
    dirCandidates := [];
    for k := 0 to |items|
      invariant dirCandidates == Candidates(fs, base, items[..k])
    {
      var itemPath := base + [items[k]];
      if IsDir(fs, itemPath) {
        var creationTime := GetCtime(fs, itemPath);
        if creationTime.Some? {
          dirCandidates := dirCandidates + [Candidate(items[k], creationTime.value)];
        }
      }
      assert items[..k + 1][..k] == items[..k];
    }
    assert items[..|items|] == items;
  }

  /** The loop over the sorted candidates: the first one a rule accepts. */
  method FirstAcceptedCandidate(fs: Node, base: Path, title: string, albumId: string, now: int,
                                dirCandidates: seq<Candidate>)
    returns (found: FallbackResult)
    ensures var k := FirstAccepted(fs, base, title, albumId, now, dirCandidates);
      found == if k >= 0 then Found(base + [dirCandidates[k].name]) else NotFound
  {
    found := NotFound;
    var i := 0;
    while i < |dirCandidates|
      invariant 0 <= i <= |dirCandidates|
      invariant forall k :: 0 <= k < i ==> !FallbackAccepts(fs, base, title, albumId, now, dirCandidates[k])
      invariant found == NotFound
    {
      var candidate := dirCandidates[i];
      var candidatePath := base + [candidate.name];
      if candidate.name == title {
        found := Found(candidatePath);
        break;
      } else if In(title, candidate.name) || In(candidate.name, title) {
        found := Found(candidatePath);
        break;
      } else if In(albumId, candidate.name) {
        found := Found(candidatePath);
        break;
      } else if AgeMinutes(now, candidate.ctime) <= RecentMinutes as real {
        var contents := ListDir(fs, candidatePath);
        if contents.Some? && HasImageFile(fs, candidatePath, contents.value) {
          found := Found(candidatePath);
          break;
        }
      }
      i := i + 1;
    }
    if i < |dirCandidates| {
      FirstAcceptedAt(fs, base, title, albumId, now, dirCandidates, i);
    }
  }

  /** An accepted candidate with no accepted one before it is the first
      accepted one. */
  lemma FirstAcceptedAt(fs: Node, base: Path, title: string, albumId: string, now: int, cands: seq<Candidate>, i: int)
    requires 0 <= i < |cands| && FallbackAccepts(fs, base, title, albumId, now, cands[i])
    requires forall k :: 0 <= k < i ==> !FallbackAccepts(fs, base, title, albumId, now, cands[k])
    ensures FirstAccepted(fs, base, title, albumId, now, cands) == i
  {
  }

  /** The fallback pass of `download_and_convert`: collect the candidates,
      sort them newest first, and take the first one a rule accepts. */
  method Fallback(fs: Node, base: Path, title: string, albumId: string, now: int) returns (found: FallbackResult)
    ensures found == FallbackSpec(fs, base, title, albumId, now)
  {
    if !Exists(fs, base) {
      return NotFound;
    }
    var listing := ListDir(fs, base);
    if listing.None? {
      return ListingRaised;
    }
    var dirCandidates := CollectCandidates(fs, base, listing.value);
    dirCandidates := SortBy(dirCandidates, NewestFirst);
    found := FirstAcceptedCandidate(fs, base, title, albumId, now, dirCandidates);
  }

  /** On an unchanged download directory, and a clock that has not gone
      back, every candidate the fallback accepts is a directory the first
      pass would have accepted. */
  lemma FallbackAcceptsFirstPassCandidates(fs: Node, base: Path, title: string, albumId: string,
                                           now: int, later: int, c: Candidate)
    requires now <= later && ListDir(fs, base).Some?
    requires c in Candidates(fs, base, ListDir(fs, base).value)
    ensures FallbackAccepts(fs, base, title, albumId, later, c) ==>
      TitleCandidate(fs, base, title, c.name) || IdOrRecentCandidate(fs, base, albumId, now, c.name)
  {
    var p := base + [c.name];
    if FallbackAccepts(fs, base, title, albumId, later, c) && !TitleMatch(c.name, title) && !In(albumId, c.name) {
      RecentWithinSeconds(fs, p, now, RecentMinutes);
      assert AgeMinutes(later, c.ctime) * 60.0 == (later - c.ctime) as real;
    }
  }

  /** Hence, on an unchanged tree, the fallback only runs when the first
      pass found nothing, and then it finds nothing either: it can succeed
      only if the file system changed in between. */
  lemma FallbackFindsNothingNew(fs: Node, base: Path, title: string, albumId: string, now: int, later: int)
    requires now <= later
    requires FirstPassSpec(fs, base, title, albumId, now).Some?
    requires !Exists(fs, FirstPassSpec(fs, base, title, albumId, now).value)
    ensures FallbackSpec(fs, base, title, albumId, later) == NotFound
  {
    if Exists(fs, base) {
      var entries := ListDir(fs, base).value;
      var cands := Candidates(fs, base, entries);
      var sorted := SortBy(cands, NewestFirst);
      assert FirstTitleIndex(fs, base, title, entries) < 0;
      assert FirstIdOrRecentIndex(fs, base, albumId, now, entries) < 0;
      SortByMembers(cands, NewestFirst);
      forall k | 0 <= k < |sorted|
        ensures !FallbackAccepts(fs, base, title, albumId, later, sorted[k])
      {
        var c := sorted[k];
        assert c in cands;
        FallbackAcceptsFirstPassCandidates(fs, base, title, albumId, now, later, c);
      }
    }
  }
}
