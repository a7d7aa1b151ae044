/** One refactoring instance of `data/ground_truth/create_ground_truth_dataset.py`
    (`RefactoringData`): where its file was before and after the commit,
    where the old and new names occur in it, and the record written for it. */
module GroundTruthCreation {

  import opened Options
  import opened IdentifierLocator

  /** One entry of a commit's "files" list. */
  datatype FileInfo = FileInfo(filename: string, previousFilename: Option<string>, status: string)

  /** The pull request a commit belongs to, as the GitHub client reports it. */
  datatype PullRequestInfo = PullRequestInfo(number: int, title: string, url: string)

  /** The outcome of `_determine_file_paths`: the two paths, or the KeyError
      raised when a renamed entry carries no "previous_filename". */
  datatype PathResolution = Resolved(before: string, after: string) | MissingPreviousFilename

  /** The settings of `Config` that the dataset entries depend on. */
  datatype Config = Config(repoOwner: string, repoProject: string)

  /** `Config`'s default repository. */
  const DefaultConfig := Config("apache", "flink")

  /** The file browser prefix of `to_dict`. */
  function BaseUrl(config: Config): string {
    "https://github.com/" + config.repoOwner + "/" + config.repoProject + "/blob"
  }

  /** The file entry is the CSV's file, under its new or its old name. */
  predicate IsMatch(info: FileInfo, csvPath: string) {
    info.filename == csvPath || info.previousFilename == Some(csvPath)
  }

  /** The index of the first entry matching the CSV's file, if any. */
  function FirstMatch(files: seq<FileInfo>, csvPath: string): (r: Option<nat>)
    ensures r.Some? ==> r.value < |files| && IsMatch(files[r.value], csvPath)
    ensures r.Some? ==> forall j :: 0 <= j < r.value ==> !IsMatch(files[j], csvPath)
    ensures r.None? ==> forall j :: 0 <= j < |files| ==> !IsMatch(files[j], csvPath)
  {
    if files == [] then None
    else if IsMatch(files[0], csvPath) then Some(0)
    else match FirstMatch(files[1..], csvPath)
      case None => None
      case Some(k) => Some(k + 1)
  }

  /** The paths `_determine_file_paths` settles on: those of the first
      matching entry (old and new name for a rename, its name twice
      otherwise), or the CSV's path twice when no entry matches. */
  function ResolvePaths(files: seq<FileInfo>, csvPath: string): (r: PathResolution)
    ensures r.MissingPreviousFilename? <==>
      exists k :: 0 <= k < |files| && FirstMatch(files, csvPath) == Some(k)
                  && files[k].status == "renamed" && files[k].previousFilename.None?
    ensures FirstMatch(files, csvPath).None? ==> r == Resolved(csvPath, csvPath)
    ensures var m := FirstMatch(files, csvPath);
      m.Some? && files[m.value].status == "renamed" && files[m.value].previousFilename.Some? ==>
        r == Resolved(files[m.value].previousFilename.value, files[m.value].filename)
    ensures var m := FirstMatch(files, csvPath);
      m.Some? && files[m.value].status != "renamed" ==> r == Resolved(files[m.value].filename, files[m.value].filename)
  {
    match FirstMatch(files, csvPath)
    case None => Resolved(csvPath, csvPath)
    case Some(k) =>
      var info := files[k];
      if info.status == "renamed" then
        match info.previousFilename
        case Some(previous) => Resolved(previous, info.filename)
        case None => MissingPreviousFilename
      else Resolved(info.filename, info.filename)
  }

  /** A resolved path is always the CSV's path or a name carried by an entry
      that mentions the CSV's path; a file that was not renamed keeps one path. */
  lemma ResolvedPathsComeFromMatch(files: seq<FileInfo>, csvPath: string)
    ensures ResolvePaths(files, csvPath).Resolved? ==>
      var r := ResolvePaths(files, csvPath);
      || (r.before == csvPath && r.after == csvPath)
      || exists k :: 0 <= k < |files| && IsMatch(files[k], csvPath) && r.after == files[k].filename
                     && (r.before == files[k].filename || files[k].previousFilename == Some(r.before))
    ensures ResolvePaths(files, csvPath).Resolved? && ResolvePaths(files, csvPath).before != ResolvePaths(files, csvPath).after ==>
      exists k :: 0 <= k < |files| && IsMatch(files[k], csvPath) && files[k].status == "renamed"
  {
  }

  /** The file as the CSV names it, unchanged by every earlier entry, is kept
      as it is, whatever later entries say. */
  lemma UnrenamedFileKeepsItsPath(files: seq<FileInfo>, csvPath: string, k: nat)
    requires k < |files| && files[k].filename == csvPath && files[k].status != "renamed"
    requires forall j :: 0 <= j < k ==> !IsMatch(files[j], csvPath)
    ensures ResolvePaths(files, csvPath) == Resolved(csvPath, csvPath)
  {
    FirstMatchIsFirst(files, csvPath, k);
  }

  /** A renamed file, first to mention the CSV's path under either name, is
      read at its previous name before the commit and its new name after,
      whatever later entries say. */
  lemma RenamedFileTakesBothNames(files: seq<FileInfo>, csvPath: string, k: nat, previous: string)
    requires k < |files| && IsMatch(files[k], csvPath) && files[k].status == "renamed"
    requires files[k].previousFilename == Some(previous)
    requires forall j :: 0 <= j < k ==> !IsMatch(files[j], csvPath)
    ensures ResolvePaths(files, csvPath) == Resolved(previous, files[k].filename)
  {
    FirstMatchIsFirst(files, csvPath, k);
  }

  lemma {:induction false} FirstMatchIsFirst(files: seq<FileInfo>, csvPath: string, k: nat)
    requires k < |files| && IsMatch(files[k], csvPath)
    requires forall j :: 0 <= j < k ==> !IsMatch(files[j], csvPath)
    ensures FirstMatch(files, csvPath) == Some(k)
  {
    if k > 0 {
      FirstMatchIsFirst(files[1..], csvPath, k - 1);
    }
  }

  /** `get_file_content` over a repository snapshot that maps (revision, path)
      to the file's text: nothing for an absent or empty path, or for a file
      the snapshot does not hold. */
  function FileContent(repository: map<(string, string), string>, revision: string, path: Option<string>): (c: Option<string>)
    ensures path.None? || path == Some("") ==> c.None?
    ensures c.Some? ==> (revision, path.value) in repository && c.value == repository[(revision, path.value)]
  {
    match path
    case None => None
    case Some(p) =>
      if p == [] then None
      else if (revision, p) in repository then Some(repository[(revision, p)])
      else None
  }

  /** The text `find_all` receives: a missing file reads as empty text. */
  function TextOf(content: Option<string>): string {
    match content
    case Some(text) => text
    case None => ""
  }

  /** `url_before_refactoring`: the file at the parent commit, or nothing without a path. */
  function UrlBefore(config: Config, commitSha: string, pathBefore: Option<string>): (url: Option<string>)
    ensures url.None? <==> pathBefore.None? || pathBefore == Some("")
    ensures url.Some? ==> url.value == BaseUrl(config) + "/" + commitSha + "^1" + "/" + pathBefore.value
  {
    match pathBefore
    case Some(p) => if p == [] then None else Some(BaseUrl(config) + "/" + commitSha + "^1" + "/" + p)
    case None => None
  }

  /** `url_after_refactoring`: the file at the commit itself, or nothing without a path. */
  function UrlAfter(config: Config, commitSha: string, pathAfter: Option<string>): (url: Option<string>)
    ensures url.None? <==> pathAfter.None? || pathAfter == Some("")
    ensures url.Some? ==> url.value == BaseUrl(config) + "/" + commitSha + "/" + pathAfter.value
  {
    match pathAfter
    case Some(p) => if p == [] then None else Some(BaseUrl(config) + "/" + commitSha + "/" + p)
    case None => None
  }

  /** Different paths at one commit get different links. */
  lemma UrlsDistinguishPaths(config: Config, commitSha: string, p: string, q: string)
    requires p != [] && q != [] && p != q
    ensures UrlBefore(config, commitSha, Some(p)) != UrlBefore(config, commitSha, Some(q))
    ensures UrlAfter(config, commitSha, Some(p)) != UrlAfter(config, commitSha, Some(q))
  {
    var before := BaseUrl(config) + "/" + commitSha + "^1" + "/";
    var after := BaseUrl(config) + "/" + commitSha + "/";
    assert (before + p)[|before|..] == p && (before + q)[|before|..] == q;
    assert (after + p)[|after|..] == p && (after + q)[|after|..] == q;
  }

  /** The link before the refactoring never equals the link after it: one
      names the parent revision `<sha>^1`, the other the commit itself. */
  lemma BeforeAndAfterUrlsDiffer(config: Config, commitSha: string, p: string, q: string)
    requires p != [] && q != []
    ensures UrlBefore(config, commitSha, Some(p)) != UrlAfter(config, commitSha, Some(q))
  {
    var prefix := BaseUrl(config) + "/" + commitSha;
    var before := prefix + "^1" + "/" + p;
    var after := prefix + "/" + q;
    assert before[|prefix|] == '^';
    assert after[|prefix|] == '/';
  }

  /** With the default configuration the links point into apache/flink on GitHub. */
  lemma DefaultRepositoryUrls(commitSha: string, p: string)
    requires p != []
    ensures UrlBefore(DefaultConfig, commitSha, Some(p)) == Some("https://github.com/apache/flink/blob/" + commitSha + "^1/" + p)
    ensures UrlAfter(DefaultConfig, commitSha, Some(p)) == Some("https://github.com/apache/flink/blob/" + commitSha + "/" + p)
  {
    var base := "https://github.com/apache/flink/blob";
    assert BaseUrl(DefaultConfig) == base;
    assert base + "/" + commitSha + "^1" + "/" + p == (base + "/") + commitSha + ("^1" + "/") + p;
    assert base + "/" == "https://github.com/apache/flink/blob/" && "^1" + "/" == "^1/";
  }

  /** The entry written for one refactoring instance. */
  datatype GroundTruthEntry = GroundTruthEntry(
    commitSha1: string,
    pullRequestInfo: Option<PullRequestInfo>,
    oldName: string,
    newName: string,
    fileChangedInCsv: string,
    refactoringType: Option<string>,
    urlBefore: Option<string>,
    filePathBefore: Option<string>,
    locationsBefore: seq<Location>,
    urlAfter: Option<string>,
    filePathAfter: Option<string>,
    locationsAfter: seq<Location>)

  /** `RefactoringData`: the CSV row it was made from and what the commit says about it. */
  class RefactoringData {
    const commitSha: string
    const oldName: string
    const newName: string
    const filePathFromCsv: string
    const refactoringType: Option<string>

    var pullRequestInfo: Option<PullRequestInfo>
    var pathBefore: Option<string>
    var pathAfter: Option<string>
    var locationsBefore: seq<Location>
    var locationsAfter: seq<Location>

    constructor (commitSha: string, oldName: string, newName: string, filePath: string, refactoringType: Option<string>)
      ensures this.commitSha == commitSha && this.oldName == oldName && this.newName == newName
      ensures this.filePathFromCsv == filePath && this.refactoringType == refactoringType
      ensures pullRequestInfo.None? && pathBefore.None? && pathAfter.None?
      ensures locationsBefore == [] && locationsAfter == []
    {
      this.commitSha := commitSha;
      this.oldName := oldName;
      this.newName := newName;
      this.filePathFromCsv := filePath;
      this.refactoringType := refactoringType;
      pullRequestInfo := None;
      pathBefore := None;
      pathAfter := None;
      locationsBefore := [];
      locationsAfter := [];
    }

    /** `_determine_file_paths`. `ok` is false where the source raises a
        KeyError, which happens before either path is assigned. */
    method DetermineFilePaths(files: seq<FileInfo>) returns (ok: bool)
      modifies this
      ensures ok <==> ResolvePaths(files, filePathFromCsv).Resolved?
      ensures ok ==> pathBefore == Some(ResolvePaths(files, filePathFromCsv).before)
      ensures ok ==> pathAfter == Some(ResolvePaths(files, filePathFromCsv).after)
      ensures !ok ==> pathBefore == old(pathBefore) && pathAfter == old(pathAfter)
      ensures pullRequestInfo == old(pullRequestInfo)
      ensures locationsBefore == old(locationsBefore) && locationsAfter == old(locationsAfter)
    {
      var i := 0;
      while i < |files|
        invariant 0 <= i <= |files|
        invariant forall j :: 0 <= j < i ==> !IsMatch(files[j], filePathFromCsv)
        invariant pathBefore == old(pathBefore) && pathAfter == old(pathAfter)
      {
        var fileInfo := files[i];
        var isMatch := fileInfo.filename == filePathFromCsv || fileInfo.previousFilename == Some(filePathFromCsv);
        if isMatch {
          FirstMatchIsFirst(files, filePathFromCsv, i);
          if fileInfo.status == "renamed" {
            if fileInfo.previousFilename.None? {
              return false;
            }
            pathBefore := fileInfo.previousFilename;
            pathAfter := Some(fileInfo.filename);
          } else {
            pathBefore := Some(fileInfo.filename);
            pathAfter := Some(fileInfo.filename);
          }
          return true;
        }
        i := i + 1;
      }
      pathBefore := Some(filePathFromCsv);
      pathAfter := Some(filePathFromCsv);
      return true;
    }

    /** `_find_identifier_locations`: the old name located in the file before
        the commit (at `<sha>^1`), the new name in the file after it. */
    method FindIdentifierLocations(repository: map<(string, string), string>)
      modifies this
      ensures LocatesAll(TextOf(FileContent(repository, commitSha + "^1", pathBefore)), oldName, locationsBefore)
      ensures LocatesAll(TextOf(FileContent(repository, commitSha, pathAfter)), newName, locationsAfter)
      ensures FileContent(repository, commitSha + "^1", pathBefore).None? ==> locationsBefore == []
      ensures FileContent(repository, commitSha, pathAfter).None? ==> locationsAfter == []
      ensures pathBefore == old(pathBefore) && pathAfter == old(pathAfter)
      ensures pullRequestInfo == old(pullRequestInfo)
    {
      var commitBeforeSha := commitSha + "^1";
      var contentBefore := FileContent(repository, commitBeforeSha, pathBefore);
      locationsBefore := FindAll(TextOf(contentBefore), oldName);
      var contentAfter := FileContent(repository, commitSha, pathAfter);
      locationsAfter := FindAll(TextOf(contentAfter), newName);
    }

    /** `populate_from_api`, with the client's answers as parameters: the
        commit's file list (nothing when it could not be fetched), its pull
        request and the repository snapshot. `ok` is false where the source
        skips the instance or raises. */
    method PopulateFromApi(commitFiles: Option<seq<FileInfo>>, pullRequest: Option<PullRequestInfo>,
                           repository: map<(string, string), string>) returns (ok: bool)
      modifies this
      ensures commitFiles.None? ==> !ok && unchanged(this)
      ensures ok <==> commitFiles.Some? && ResolvePaths(commitFiles.value, filePathFromCsv).Resolved?
      ensures ok ==> pullRequestInfo == pullRequest
      ensures ok ==> pathBefore == Some(ResolvePaths(commitFiles.value, filePathFromCsv).before)
      ensures ok ==> pathAfter == Some(ResolvePaths(commitFiles.value, filePathFromCsv).after)
      ensures ok ==> LocatesAll(TextOf(FileContent(repository, commitSha + "^1", pathBefore)), oldName, locationsBefore)
      ensures ok ==> LocatesAll(TextOf(FileContent(repository, commitSha, pathAfter)), newName, locationsAfter)
    {
      if commitFiles.None? {
        return false;
      }
      pullRequestInfo := pullRequest;
      ok := DetermineFilePaths(commitFiles.value);
      if !ok {
        return;
      }
      FindIdentifierLocations(repository);
    }

    /** `to_dict` */
    function ToDict(config: Config): (entry: GroundTruthEntry)
      reads this
      ensures entry.commitSha1 == commitSha && entry.oldName == oldName && entry.newName == newName
      ensures entry.fileChangedInCsv == filePathFromCsv && entry.refactoringType == refactoringType
      ensures entry.filePathBefore == pathBefore && entry.filePathAfter == pathAfter
      ensures entry.pullRequestInfo == pullRequestInfo
      ensures entry.locationsBefore == locationsBefore && entry.locationsAfter == locationsAfter
      ensures entry.urlBefore.None? <==> pathBefore.None? || pathBefore == Some("")
      ensures entry.urlAfter.None? <==> pathAfter.None? || pathAfter == Some("")
      ensures entry.urlBefore.Some? ==> entry.urlBefore.value == BaseUrl(config) + "/" + commitSha + "^1" + "/" + pathBefore.value
      ensures entry.urlAfter.Some? ==> entry.urlAfter.value == BaseUrl(config) + "/" + commitSha + "/" + pathAfter.value
    {
      GroundTruthEntry(
        commitSha, pullRequestInfo, oldName, newName, filePathFromCsv, refactoringType,
        UrlBefore(config, commitSha, pathBefore), pathBefore, locationsBefore,
        UrlAfter(config, commitSha, pathAfter), pathAfter, locationsAfter)
    }
  }
}
