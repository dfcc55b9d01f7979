/** The pure part of the `download` command: choosing the episode, checking
    its URL and building the destination path, then the command's exit code
    and JSON report. */
module Download {
  import opened Wrappers
  import opened Text
  import opened Filename
  import opened Episodes
  import opened Seqs

  const DefaultEpisodeName: string := "Unknown Episode"
  const DefaultPodcastName: string := "Unknown Podcast"
  const Extension: string := ".mp3"

  /** A POSIX path as pathlib holds it: rooted or relative, and its
      components (pathlib drops empty and "." components). */
  datatype Path = Path(absolute: bool, parts: seq<string>)

  /** A component pathlib keeps: not empty, not ".", and without a separator. */
  predicate IsComponent(name: string) {
    name != "" && name != "." && '/' !in name
  }

  /** The paths pathlib builds: every component is one it keeps. */
  predicate ValidPath(p: Path) {
    forall i :: 0 <= i < |p.parts| ==> IsComponent(p.parts[i])
  }

  /** pathlib's `p / name` for a name with no separator in it. */
  function Child(p: Path, name: string): (c: Path)
    requires '/' !in name
    ensures c.absolute == p.absolute
    ensures IsComponent(name) ==> c.parts == p.parts + [name]
    ensures !IsComponent(name) ==> c == p
    ensures ValidPath(p) ==> ValidPath(c)
  {
    if name == "" || name == "." then p else Path(p.absolute, p.parts + [name])
  }

  /** `str(p)`: components joined by '/', a leading '/' when rooted, and "."
      for the empty relative path. */
  function PathString(p: Path): (r: string)
    ensures ValidPath(p) ==> r != [] && (r[0] == '/' <==> p.absolute)
  {
    if p.absolute then "/" + Join(p.parts, '/')
    else if p.parts == [] then "."
    else
      if ValidPath(p) then JoinStartsWithComponent(p.parts); Join(p.parts, '/')
      else Join(p.parts, '/')
  }

  /** A relative path's string starts with its first component, not '/'. */
  lemma JoinStartsWithComponent(parts: seq<string>)
    requires parts != [] && IsComponent(parts[0])
    ensures Join(parts, '/') != [] && Join(parts, '/')[0] != '/'
  {
    var j := Join(parts, '/');
    JoinStartsWithFirst(parts, '/');
    assert j[0] == parts[0][0];
    assert parts[0][0] in parts[0];
  }

  /** The string of a path parses back into its components: splitting at
      '/' gives them, after one empty piece for the root. */
  lemma PathStringSplits(p: Path)
    requires ValidPath(p) && p.parts != []
    ensures Split(PathString(p), '/') == (if p.absolute then [""] else []) + p.parts
  {
    if p.absolute {
      var pieces := [""] + p.parts;
      assert pieces[1..] == p.parts;
      assert Join(pieces, '/') == PathString(p);
      SplitJoin(pieces, '/');
    } else {
      SplitJoin(p.parts, '/');
    }
  }

  /** `str(p / name)`: the name after a '/', except that the root and the
      empty relative path add no separator of their own. */
  lemma ChildString(p: Path, name: string)
    requires IsComponent(name)
    ensures PathString(Child(p, name)) ==
      if p.parts == [] then (if p.absolute then "/" else "") + name
      else PathString(p) + "/" + name
  {
    JoinAppend(p.parts, name, '/');
  }

  /** No sanitised name contains a path separator. */
  lemma SanitizedHasNoSlash(s: string)
    requires Sanitized(s)
    ensures '/' !in s
  {
  }

  /** The episode's file name: the sanitised "podcast - episode" plus ".mp3". */
  function EpisodeFileName(podcast: string, episode: string): (f: string)
    ensures '/' !in f
    ensures |Extension| <= |f| <= DefaultMaxLength + |Extension|
    ensures f[|f| - |Extension|..] == Extension
    ensures f[..|f| - |Extension|] == SafeFilename(podcast + " - " + episode, DefaultMaxLength)
  {
    var stem := SafeFilename(podcast + " - " + episode, DefaultMaxLength);
    SanitizedHasNoSlash(stem);
    WithExtension(stem);
    stem + Extension
  }

  /** A stem without '/' followed by ".mp3". */
  lemma WithExtension(stem: string)
    requires '/' !in stem
    ensures var f := stem + Extension;
      && '/' !in f
      && f[|f| - |Extension|..] == Extension
      && f[..|f| - |Extension|] == stem
  {
    var f := stem + Extension;
    assert f[|stem|..] == Extension;
    assert f[..|stem|] == stem;
    assert '/' !in Extension;
  }

  /** `dir / folder / file`: an empty or "." folder adds no component. */
  function FolderAndFile(dir: Path, folder: string, file: string): (p: Path)
    requires '/' !in folder && '/' !in file
    requires file != "" && file != "."
    ensures p.absolute == dir.absolute
    ensures |dir.parts| < |p.parts| && p.parts[..|dir.parts|] == dir.parts
    ensures p.parts[|p.parts| - 1] == file
    ensures if folder == "" || folder == "." then |p.parts| == |dir.parts| + 1
      else |p.parts| == |dir.parts| + 2 && p.parts[|dir.parts|] == folder
  {
    Child(Child(dir, folder), file)
  }

  /** `output_dir / safe_filename(podcast) / filename`: the podcast's folder
      (absent when its sanitised name is empty or ".") and then the file. */
  function OutputPath(dir: Path, podcast: string, episode: string): (p: Path)
    ensures p.absolute == dir.absolute
    ensures |dir.parts| < |p.parts| && p.parts[..|dir.parts|] == dir.parts
    ensures p.parts[|p.parts| - 1] == EpisodeFileName(podcast, episode)
    ensures var folder := SafeFilename(podcast, DefaultMaxLength);
      if folder == "" || folder == "." then |p.parts| == |dir.parts| + 1
      else |p.parts| == |dir.parts| + 2 && p.parts[|dir.parts|] == folder
  {
    var folder := SafeFilename(podcast, DefaultMaxLength);
    SanitizedHasNoSlash(folder);
    var file := EpisodeFileName(podcast, episode);
    FolderAndFile(dir, folder, file)
  }

  /** `str(output_path)`, the "path" of the JSON report: the directory, then
      the podcast folder unless pathlib dropped it, then the file, joined by
      '/' (with no separator of their own after the root or the empty
      relative directory). */
  lemma OutputPathString(dir: Path, podcast: string, episode: string)
    requires ValidPath(dir)
    ensures var folder := SafeFilename(podcast, DefaultMaxLength);
      var file := EpisodeFileName(podcast, episode);
      var base := if dir.parts == [] then (if dir.absolute then "/" else "") else PathString(dir) + "/";
      PathString(OutputPath(dir, podcast, episode)) ==
        if folder == "" || folder == "." then base + file else base + folder + "/" + file
  {
    var folder := SafeFilename(podcast, DefaultMaxLength);
    var file := EpisodeFileName(podcast, episode);
    SanitizedHasNoSlash(folder);
    assert OutputPath(dir, podcast, episode) == Child(Child(dir, folder), file);
    TwoChildrenString(dir, folder, file);
  }

  lemma TwoChildrenString(dir: Path, folder: string, file: string)
    requires '/' !in folder && IsComponent(file)
    ensures var base := if dir.parts == [] then (if dir.absolute then "/" else "") else PathString(dir) + "/";
      PathString(Child(Child(dir, folder), file)) ==
        if folder == "" || folder == "." then base + file else base + folder + "/" + file
  {
    var q := Child(dir, folder);
    if IsComponent(folder) {
      ChildString(dir, folder);
      ChildString(q, file);
    } else {
      ChildString(dir, file);
    }
  }

  /** The file name keeps every plain character of the podcast and episode
      titles, in order, when "podcast - episode" fits the length limit: the
      " - " between them holds none. */
  lemma EpisodeFileNameKeepsTitles(podcast: string, episode: string)
    requires |podcast| + 3 + |episode| <= DefaultMaxLength
    ensures var f := EpisodeFileName(podcast, episode);
      Filter(IsPlain, f[..|f| - |Extension|]) == Filter(IsPlain, podcast) + Filter(IsPlain, episode)
  {
    TitleKeepsPlain(podcast, episode);
  }

  lemma TitleKeepsPlain(podcast: string, episode: string)
    requires |podcast| + 3 + |episode| <= DefaultMaxLength
    ensures Filter(IsPlain, SafeFilename(podcast + " - " + episode, DefaultMaxLength))
      == Filter(IsPlain, podcast) + Filter(IsPlain, episode)
  {
    SafeFilenameKeepsPlain(podcast + " - " + episode, DefaultMaxLength);
    SeparatorKeepsPlain(podcast, " - ", episode);
  }

  /** " - " holds no plain character. */
  lemma SeparatorKeepsPlain(podcast: string, sep: string, episode: string)
    requires sep == " - "
    ensures Filter(IsPlain, podcast + sep + episode) == Filter(IsPlain, podcast) + Filter(IsPlain, episode)
  {
    assert forall i :: 0 <= i < |sep| ==> sep[i] == ' ' || sep[i] == '-';
    FilterNone(IsPlain, sep);
    DropSeparator(podcast, sep, episode);
  }

  lemma DropSeparator(podcast: string, sep: string, episode: string)
    requires Filter(IsPlain, sep) == []
    ensures Filter(IsPlain, podcast + sep + episode) == Filter(IsPlain, podcast) + Filter(IsPlain, episode)
  {
    FilterConcat(IsPlain, podcast + sep, episode);
    FilterConcat(IsPlain, podcast, sep);
  }

  /** What the command saves and reports for a chosen episode. */
  datatype Target = Target(url: string, path: Path, episodeName: string, podcastName: string)

  /** The ways choosing an episode ends the command before any download:
      `episode_index >= len(episodes)` (or no episodes), Python's own
      IndexError for an index below `-len(episodes)` (uncaught, so the
      interpreter exits with status 1), and a missing or empty URL. */
  datatype SelectError = IndexNotFound | UncaughtIndexError | NoDownloadUrl

  /** The position Python's `episodes[index]` reads, for -n <= index < n. */
  function Position(n: int, index: int): (k: int)
    requires -n <= index < n
    ensures 0 <= k < n
    ensures index >= 0 ==> k == index
    ensures index < 0 ==> k - n == index
  {
    if index < 0 then n + index else index
  }

  /** True when the entry has a URL that is not empty. */
  predicate HasUrl(e: Entry) {
    e.episodeUrl.Some? && e.episodeUrl.value != ""
  }

  /** Lines 221-238 of `cmd_download`: guard the index, read the names with
      their defaults, reject a missing URL, build the path. */
  function SelectDownload(episodes: seq<Entry>, index: int, dir: Path): (r: Result<Target, SelectError>)
    ensures r == Failure(IndexNotFound) <==> |episodes| == 0 || index >= |episodes|
    ensures r == Failure(UncaughtIndexError) <==> 0 < |episodes| && index < -|episodes|
    ensures r == Failure(NoDownloadUrl) <==>
      0 < |episodes| && -|episodes| <= index < |episodes| && !HasUrl(episodes[Position(|episodes|, index)])
    ensures r.Success? ==>
      && -|episodes| <= index < |episodes|
      && var e := episodes[Position(|episodes|, index)];
      && e.episodeUrl == Some(r.value.url) && r.value.url != ""
      && r.value.episodeName == e.trackName.GetOr(DefaultEpisodeName)
      && r.value.podcastName == e.collectionName.GetOr(DefaultPodcastName)
      && r.value.path == OutputPath(dir, r.value.podcastName, r.value.episodeName)
  {
    if |episodes| == 0 || index >= |episodes| then Failure(IndexNotFound)
    else if index < -|episodes| then Failure(UncaughtIndexError)
    else
      var e := episodes[Position(|episodes|, index)];
      var episodeName := e.trackName.GetOr(DefaultEpisodeName);
      var podcastName := e.collectionName.GetOr(DefaultPodcastName);
      if !HasUrl(e) then Failure(NoDownloadUrl)
      else Success(Target(e.episodeUrl.value, OutputPath(dir, podcastName, episodeName), episodeName, podcastName))
  }

  /** Index -1 is not rejected: it selects the last episode. */
  lemma MinusOneSelectsLast(episodes: seq<Entry>, dir: Path)
    requires |episodes| > 0 && HasUrl(episodes[|episodes| - 1])
    ensures SelectDownload(episodes, -1, dir).Success?
    ensures SelectDownload(episodes, -1, dir).value.url == episodes[|episodes| - 1].episodeUrl.value
  {
    var r := SelectDownload(episodes, -1, dir);
    assert Position(|episodes|, -1) == |episodes| - 1;
    assert !r.Failure?;
  }

  /** How the downloader's call ended; the transfer itself is not modelled. */
  datatype Attempt = Completed | Raised(message: string)

  /** The JSON object the command prints on standard output. */
  datatype Report =
    | Downloaded(path: string, episode: string, podcast: string)
    | DownloadFailed(error: string)

  /** The command's exit status and what it printed on standard output. */
  datatype Outcome = Outcome(exitCode: int, report: Option<Report>)

  /** `cmd_download` after argument parsing: `lookup` is the lookup response
      and `attempt` how `download_episode` ended had it been called. */
  function RunDownload(lookup: seq<Entry>, index: int, dir: Path, attempt: Attempt): (o: Outcome)
    ensures o.exitCode == 0 || o.exitCode == 1
    ensures var s := SelectDownload(GetEpisodes(lookup), index, dir);
      && (o.exitCode == 0 <==> s.Success? && attempt.Completed?)
      && (o.report.Some? <==> s.Success?)
      && (s.Success? && attempt.Completed? ==>
            o.report == Some(Downloaded(PathString(s.value.path), s.value.episodeName, s.value.podcastName)))
      && (s.Success? && attempt.Raised? ==> o.report == Some(DownloadFailed(attempt.message)))
  {
    match SelectDownload(GetEpisodes(lookup), index, dir)
    case Failure(_) => Outcome(1, None)
    case Success(t) =>
      match attempt
      case Completed => Outcome(0, Some(Downloaded(PathString(t.path), t.episodeName, t.podcastName)))
      case Raised(msg) => Outcome(1, Some(DownloadFailed(msg)))
  }

  /** The path a successful download reports parses back, at '/', into the
      components of the chosen target's path. */
  lemma ReportedPathParses(lookup: seq<Entry>, index: int, dir: Path)
    requires ValidPath(dir)
    requires SelectDownload(GetEpisodes(lookup), index, dir).Success?
    ensures var t := SelectDownload(GetEpisodes(lookup), index, dir).value;
      var o := RunDownload(lookup, index, dir, Completed);
      && o.report.Some? && o.report.value.Downloaded?
      && Split(o.report.value.path, '/') == (if dir.absolute then [""] else []) + t.path.parts
  {
    var t := SelectDownload(GetEpisodes(lookup), index, dir).value;
    OutputPathValid(dir, t.podcastName, t.episodeName);
    PathStringSplits(t.path);
  }

  /** A valid directory gives a valid, non-empty output path. */
  lemma OutputPathValid(dir: Path, podcast: string, episode: string)
    requires ValidPath(dir)
    ensures ValidPath(OutputPath(dir, podcast, episode))
    ensures OutputPath(dir, podcast, episode).parts != []
  {
    var folder := SafeFilename(podcast, DefaultMaxLength);
    var file := EpisodeFileName(podcast, episode);
    SanitizedHasNoSlash(folder);
    assert OutputPath(dir, podcast, episode) == Child(Child(dir, folder), file);
  }

  /** An episode without a URL ends the command with status 1 and prints no
      JSON report at all, whatever the downloader would have done. */
  lemma MissingUrlPrintsNothing(lookup: seq<Entry>, index: int, dir: Path, attempt: Attempt)
    requires var episodes := GetEpisodes(lookup);
      0 <= index < |episodes| && !HasUrl(episodes[index])
    ensures RunDownload(lookup, index, dir, attempt) == Outcome(1, None)
  {
  }

  /** An index past the last episode ends the command with status 1 before
      any download: the outcome does not depend on the downloader. */
  lemma IndexPastEndSkipsDownload(lookup: seq<Entry>, index: int, dir: Path, a1: Attempt, a2: Attempt)
    requires index >= |GetEpisodes(lookup)|
    ensures RunDownload(lookup, index, dir, a1) == RunDownload(lookup, index, dir, a2) == Outcome(1, None)
  {
  }
}
