/**
 * Start-up and one run: `validatePath` decides the output directory, then
 * the mailbox loop runs over the search results. File-system existence, the
 * outcome of `mkdir`, the working directory and the search results are
 * parameters.
 */
module Cli {

  import opened Wrappers
  import opened PosixPath
  import opened Download
  import opened Mailbox

  const DefaultOutput: string := "./out"

  datatype Startup = Proceed(directory: string) | Exit(code: int)

  /**
   * `validatePath`: a path that does not exist is created and becomes the
   * output directory; a path that exists leaves `directory` as it was; a
   * failed `mkdir` ends the process with code 0.
   */
  function ValidatePath(directory: string, path: string, pathExists: bool, mkdirSucceeds: bool): (r: Startup)
    ensures r.Exit? <==> !pathExists && !mkdirSucceeds
    ensures r.Exit? ==> r.code == 0
    ensures r.Proceed? && r.directory != directory ==> r.directory == path && !pathExists
  {
    if pathExists then Proceed(directory)
    else if mkdirSucceeds then Proceed(path)
    else Exit(0)
  }

  /** The `--output` part of `validateArgs`: an empty option skips `validatePath`. */
  function ValidateOutput(output: string, pathExists: bool, mkdirSucceeds: bool): (r: Startup)
    ensures r.Exit? ==> output != "" && r.code == 0
    ensures r.Proceed? ==> r.directory == DefaultOutput || r.directory == output
  {
    if output == "" then Proceed(DefaultOutput)
    else ValidatePath(DefaultOutput, output, pathExists, mkdirSucceeds)
  }

  /**
   * The directory used after start-up is the requested one only when it was
   * just created (or is the default); an existing directory other than the
   * default is ignored in favour of `./out`. The run stops exactly when a
   * non-empty path neither exists nor can be created.
   */
  lemma OutputDirectoryChoice(output: string, pathExists: bool, mkdirSucceeds: bool)
    ensures ValidateOutput(output, pathExists, mkdirSucceeds).Exit?
        <==> output != "" && !pathExists && !mkdirSucceeds
    ensures ValidateOutput(output, pathExists, mkdirSucceeds).Exit? ==>
      ValidateOutput(output, pathExists, mkdirSucceeds).code == 0
    ensures ValidateOutput(output, pathExists, mkdirSucceeds).Proceed? ==>
      var d := ValidateOutput(output, pathExists, mkdirSucceeds).directory;
      && (d == DefaultOutput || d == output)
      && (d == output && output != DefaultOutput
          <==> !pathExists && mkdirSucceeds && output != "" && output != DefaultOutput)
    ensures output != "" && pathExists ==> ValidateOutput(output, pathExists, mkdirSucceeds) == Proceed(DefaultOutput)
  {
  }

  /**
   * How a run ends: start-up exited, or the mailbox loop ended with the
   * file system, the flagged UIDs, and whether the mailbox was closed with
   * expunge (it is not when an error reached the top-level `catch`).
   */
  datatype RunOutcome =
    | Exited(code: int)
    | Ended(fs: FileSystem, flagged: seq<nat>, expunged: bool)

  /**
   * One invocation. `search` is `None` when reading the configuration,
   * connecting, opening the inbox or searching fails.
   */
  method Run(output: string, pathExists: bool, mkdirSucceeds: bool, cwd: string, fs: FileSystem,
             search: Option<seq<Message>>, deleteAfterParse: bool)
    returns (outcome: RunOutcome)
    requires IsAbsolute(cwd)
    ensures outcome.Exited? <==> ValidateOutput(output, pathExists, mkdirSucceeds).Exit?
    ensures outcome.Exited? ==> outcome.code == 0
    ensures outcome.Ended? && search.None? ==> outcome == Ended(fs, [], false)
    ensures outcome.Ended? && search.Some? ==>
      && (outcome.expunged <==> AllParsed(search.value))
      && outcome.flagged == FlaggedUids(search.value, deleteAfterParse)
    ensures outcome.Ended? && !deleteAfterParse ==> outcome.flagged == []
    ensures outcome.Ended? && search.Some? ==>
      outcome.fs == DownloadAll(fs, PathResolve(cwd, ValidateOutput(output, pathExists, mkdirSucceeds).directory),
                                search.value[..ParsedPrefix(search.value)])
    ensures outcome.Ended? ==>
      var root := PathResolve(cwd, ValidateOutput(output, pathExists, mkdirSucceeds).directory);
      && fs.dirs <= outcome.fs.dirs
      && forall d :: d in outcome.fs.dirs && d !in fs.dirs ==> IsInside(root, d)
  {
    var startup := ValidateOutput(output, pathExists, mkdirSucceeds);
    if startup.Exit? {
      return Exited(startup.code);
    }
    var root := PathResolve(cwd, startup.directory);
    if search.None? {
      return Ended(fs, [], false);
    }
    var msgs := search.value;
    var after, flagged, completed := ProcessMessages(fs, root, msgs, deleteAfterParse);
    CreatedDirsInsideRoot(fs, root, msgs[..ParsedPrefix(msgs)]);
    outcome := Ended(after, flagged, completed);
  }
}
