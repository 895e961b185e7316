/** The naming and decision logic of symmetrise_cif.py: where the symmetrised
    CIF goes, which download is moved there, and what the overwrite prompt does
    with the user's answers. The file system is passed in as values: whether
    the downloads directory exists, the downloads listing with the ctime of
    each entry (`os.path.getctime`: the last change of its metadata on Unix),
    the set of paths that are regular files (`os.path.isfile`), and the
    answers `input` would return. */
module Symmetrise {
  import opened Strings

  const SUFFIX := "_sym.cif"

  // ---------------------------------------------------------------------------
  // Names.

  /** `'/'.join(path.split('/')[:-1]) + '/'`: the directory part, with a trailing '/'. */
  function Destination(path: string): string {
    var segs := Split(path, '/');
    Join('/', segs[..|segs| - 1]) + "/"
  }

  /** `path.split('/')[-1]`: the file name. */
  function LastSegment(path: string): string {
    var segs := Split(path, '/');
    segs[|segs| - 1]
  }

  /** `'.'.join(name.split('.')[:-1])`: the file name without its extension. */
  function StrName(path: string): string {
    var parts := Split(LastSegment(path), '.');
    Join('.', parts[..|parts| - 1])
  }

  /** What follows the last '.' of the file name. */
  function Extension(path: string): string {
    var parts := Split(LastSegment(path), '.');
    parts[|parts| - 1]
  }

  /** `destination + name + suffix` */
  function TargetPath(destination: string, name: string): string {
    destination + name + SUFFIX
  }

  /** The destination and the file name make up the path when it has a '/';
      without one the destination is the root "/" and the name is the path. */
  lemma DestinationSplit(path: string)
    ensures '/' !in LastSegment(path)
    ensures '/' in path ==> Destination(path) + LastSegment(path) == path
    ensures '/' !in path ==> Destination(path) == "/" && LastSegment(path) == path
  {
    SplitPiecesFree(path, '/');
    SplitAtLast(path, '/');
  }

  /** The name is everything before the last '.' of the file name, earlier dots
      included, and empty when the file name has no '.'. */
  lemma StrNameSplit(path: string)
    ensures '.' !in Extension(path)
    ensures '.' in LastSegment(path) ==> StrName(path) + "." + Extension(path) == LastSegment(path)
    ensures '.' !in LastSegment(path) ==> StrName(path) == ""
  {
    var seg := LastSegment(path);
    SplitPiecesFree(seg, '.');
    SplitAtLast(seg, '.');
  }

  /** For a path with a directory and an extension, the symmetrised file sits
      beside the input with the extension replaced by "_sym.cif". */
  lemma TargetReplacesExtension(path: string)
    requires '/' in path && '.' in LastSegment(path)
    ensures |Extension(path)| + 1 <= |path|
    ensures TargetPath(Destination(path), StrName(path)) == path[..|path| - |Extension(path)| - 1] + SUFFIX
  {
    DestinationSplit(path);
    StrNameSplit(path);
    var stem := Destination(path) + StrName(path);
    assert path == stem + "." + Extension(path);
    assert path[..|path| - |Extension(path)| - 1] == stem;
  }

  // ---------------------------------------------------------------------------
  // The newest download.

  /** An entry of the downloads listing and its ctime. */
  datatype Download = Download(path: string, ctime: real)

  /** `max(list_of_files, key=os.path.getctime)`: the position of the first file
      with the latest ctime. */
  function Newest(files: seq<Download>): (b: nat)
    requires |files| > 0
    ensures b < |files|
    ensures forall j :: 0 <= j < |files| ==> files[j].ctime <= files[b].ctime
    ensures forall j :: 0 <= j < b ==> files[j].ctime < files[b].ctime
  {
    if |files| == 1 then 0
    else
      var n := |files| - 1;
      var best := Newest(files[..n]);
      assert forall j :: 0 <= j < n ==> files[..n][j] == files[j];
      if files[n].ctime > files[best].ctime then n else best
  }

  // ---------------------------------------------------------------------------
  // The overwrite prompt.

  predicate IsYes(answer: string) { Lower(answer) == "y" || Lower(answer) == "yes" }
  predicate IsNo(answer: string) { Lower(answer) == "n" || Lower(answer) == "no" }

  /** The first answer from position i on that the prompt accepts: a yes, a no,
      or none before the answers run out. */
  datatype Reply = Overwrite(at: nat) | Decline(at: nat) | NoReply

  function FirstReply(answers: seq<string>, i: nat): (r: Reply)
    requires i <= |answers|
    ensures r.Overwrite? ==> i <= r.at < |answers| && IsYes(answers[r.at])
    ensures r.Decline? ==> i <= r.at < |answers| && IsNo(answers[r.at]) && !IsYes(answers[r.at])
    ensures forall j :: i <= j < |answers| && (r.NoReply? || j < r.at) ==> !IsYes(answers[j]) && !IsNo(answers[j])
    decreases |answers| - i
  {
    if i == |answers| then NoReply
    else if IsYes(answers[i]) then Overwrite(i)
    else if IsNo(answers[i]) then Decline(i)
    else FirstReply(answers, i + 1)
  }

  /** What `move_downloaded_file` ends in: the `IOError` for a missing downloads
      directory, the `ValueError` of `max` on an empty listing, the move (with the
      number of answers read), the `FileExistsError` after a no, or the
      `EOFError` of `input` when the answers run out. */
  datatype MoveOutcome =
    | DownloadsMissing
    | EmptyDownloads
    | Moved(source: string, target: string, asked: nat)
    | Declined(asked: nat)
    | InputExhausted(asked: nat)

  function MoveSpec(downloadsExist: bool, listing: seq<Download>, files: set<string>,
                    destination: string, name: string, answers: seq<string>): MoveOutcome
  {
    if !downloadsExist then DownloadsMissing
    else if |listing| == 0 then EmptyDownloads
    else
      var source := listing[Newest(listing)].path;
      var target := TargetPath(destination, name);
      if target !in files then Moved(source, target, 0)
      else
        match FirstReply(answers, 0)
        case Overwrite(i) => Moved(source, target, i + 1)
        case Decline(i) => Declined(i + 1)
        case NoReply => InputExhausted(|answers|)
  }

  /** The files after `os.rename(source, target)` when the outcome is a move. */
  function FilesAfter(files: set<string>, outcome: MoveOutcome): set<string> {
    if outcome.Moved? then (files - {outcome.source}) + {outcome.target} else files
  }

  /** `move_downloaded_file`, with its prompt loop reading `answers` in order. */
  method MoveDownloadedFile(downloadsExist: bool, listing: seq<Download>, files: set<string>,
                            destination: string, name: string, answers: seq<string>)
    returns (outcome: MoveOutcome, after: set<string>)
    ensures outcome == MoveSpec(downloadsExist, listing, files, destination, name, answers)
    ensures after == FilesAfter(files, outcome)
  {
    if !downloadsExist {
      return DownloadsMissing, files;
    }
    if |listing| == 0 {
      return EmptyDownloads, files;
    }
    var latestFile := listing[Newest(listing)].path;
    var filepath := destination + name + SUFFIX;
    if filepath !in files {
      return Moved(latestFile, filepath, 0), (files - {latestFile}) + {filepath};
    }
    var i := 0;
    while true
      invariant 0 <= i <= |answers|
      invariant FirstReply(answers, i) == FirstReply(answers, 0)
      decreases |answers| - i
    {
      if i == |answers| {
        return InputExhausted(i), files;
      }
      var answer := Lower(answers[i]);
      i := i + 1;
      if answer == "y" || answer == "yes" {
        return Moved(latestFile, filepath, i), (files - {latestFile}) + {filepath};
      } else if answer == "n" || answer == "no" {
        return Declined(i), files;
      }
    }
  }

  /** Where the move ends, in terms of the inputs alone: the checks come first;
      an absent target is moved to without a question; otherwise the first yes
      or no among the answers decides, and everything before it is ignored. */
  lemma MoveDecision(downloadsExist: bool, listing: seq<Download>, files: set<string>,
                     destination: string, name: string, answers: seq<string>, i: nat)
    requires downloadsExist && |listing| > 0 && TargetPath(destination, name) in files
    requires i < |answers| && forall j :: 0 <= j < i ==> !IsYes(answers[j]) && !IsNo(answers[j])
    ensures var o := MoveSpec(downloadsExist, listing, files, destination, name, answers);
      (IsYes(answers[i]) ==> o == Moved(listing[Newest(listing)].path, TargetPath(destination, name), i + 1)) &&
      (IsNo(answers[i]) ==> o == Declined(i + 1))
  {
  }

  /** The outcome of the move, case by case. */
  lemma MoveCases(downloadsExist: bool, listing: seq<Download>, files: set<string>,
                  destination: string, name: string, answers: seq<string>)
    ensures var o := MoveSpec(downloadsExist, listing, files, destination, name, answers);
      (o == DownloadsMissing <==> !downloadsExist) &&
      (o == EmptyDownloads <==> downloadsExist && |listing| == 0) &&
      (o.Moved? ==>
         (o.target == TargetPath(destination, name) &&
          exists b :: 0 <= b < |listing| && o.source == listing[b].path &&
            forall j :: 0 <= j < |listing| ==> listing[j].ctime <= listing[b].ctime)) &&
      (downloadsExist && |listing| > 0 && TargetPath(destination, name) !in files ==> o.Moved? && o.asked == 0) &&
      (o.InputExhausted? ==> forall j :: 0 <= j < |answers| ==> !IsYes(answers[j]) && !IsNo(answers[j]))
  {
    if downloadsExist && |listing| > 0 {
      var b := Newest(listing);
      assert listing[b].path == listing[Newest(listing)].path;
    }
  }

  // ---------------------------------------------------------------------------
  // The workflow.

  /** The file handling of `symmetrise_using_findsym`: the target is named after
      the structure file and lies in its directory. */
  method SymmetriseUsingFindsym(structureFilePath: string, downloadsExist: bool, listing: seq<Download>,
                                files: set<string>, answers: seq<string>)
    returns (outcome: MoveOutcome, after: set<string>)
    ensures outcome == MoveSpec(downloadsExist, listing, files,
                                Destination(structureFilePath), StrName(structureFilePath), answers)
    ensures after == FilesAfter(files, outcome)
  {
    var destination := Destination(structureFilePath);
    var strName := StrName(structureFilePath);
    outcome, after := MoveDownloadedFile(downloadsExist, listing, files, destination, strName, answers);
  }
}
