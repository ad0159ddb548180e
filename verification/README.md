# email-document-storage, modelled in Dafny

The program downloads every message of an IMAP inbox. It saves each
message's attachments under `<output>/<Capitalized/Subject>/<filename>` and
can flag the processed messages `Deleted`, so that closing the mailbox
expunges them. This project models the pure logic of that program:

- turning a subject into a folder name (`capitalizeFirstLetter`, `capitalizeFirstLetterPath`);
- deciding whether that folder is a safe relative path (`isValidRelativePath`);
- the per-mail decisions of `downloadAttachments`: skip or process, the folder with its `error` fallback, and the destination of each attachment;
- the message loop of `main`: delete flags, the abort on a parser error, and expunge on close;
- the start-up update of the output directory in `validatePath` / `validateArgs`.

Strings are `seq<char>`. The file system is an abstract value: a set of
directory paths and a map from file path to bytes. Writing a file is a map
update, so a repeated destination ends up holding the last content written to it.
Node's POSIX `path.normalize`, `path.join` and `path.resolve` are modelled
over `/`-separated pieces (`PosixPath`). They follow Node's `normalizeString`:
empty and `.` pieces are dropped, and `..` cancels the previous name. A `..`
with nothing to cancel is kept in a relative path and dropped at the root of
an absolute one.

Modules, leaf to root: `Wrappers` (Option), `AsciiCase`, `Segments`
(split/join on `/`), `Capitalize`, `PosixPath`, `RelativePath`, `Download`,
`Mailbox`, `Cli`.

Behaviour of the program that its names and comments do not suggest, all modelled as the code does it:

- `capitalizeFirstLetter` lower-cases the whole rest of each `/`-piece, not just the rest of its first word (src/index.ts:40).
- It upper-cases the first *character*, which may not be a letter.
- `a/../..` contains only allowed characters and does not begin with `..`, yet it normalizes to `..` and is refused (`RelativePath.ClimbBackRejected`). The exact verdict is `RelativePath.ValidRelativePathIff`.
- `isValidRelativePath` refuses every normalized path that *begins with the characters* `..`. That includes `..foo`, which never climbs (`RelativePath.DottedNameRejected`).
- Capitalization never changes the verdict (`RelativePath.CapitalizedValidIff`). So the `error` fallback is taken exactly when the raw subject is not a valid relative path. In particular, a capitalized subject is never empty when the subject is not empty, so the `!folder` test at src/index.ts:51 never fires on its own.
- A skipped mail (no subject or no attachments) is still flagged `Deleted` when deletion is on, because the flag at src/index.ts:139-141 does not depend on the skip.
- `validatePath` assigns `directory` only when it creates the path. An output path that already exists is ignored, and the run writes to `./out` (`Cli.OutputDirectoryChoice`).
- The attachment file name is not checked. A name like `../x` is written outside the mail's folder (`Download.FilenameCanLeaveFolder`). The subject check keeps the *folder* under the output root (`Download.DownloadDirInsideRoot`), but not the files.

## Model

| member | source | states |
|---|---|---|
| Segments.Split | src/index.ts:44 | `split("/")` yields one more piece than the string has slashes, and no piece contains a slash |
| Segments.JoinSplit | src/index.ts:44 | joining the pieces of a split with `/` gives back the original string |
| Segments.SplitJoin | src/index.ts:44 | splitting a join of slash-free pieces gives back the pieces |
| Segments.SplitAppend | src/index.ts:44 | splitting `a/b` gives the pieces of `a` followed by the pieces of `b` |
| Capitalize.CapitalizeFirstLetter | src/index.ts:39-41 | same length, and the same characters ignoring case; the first character is not lower-case and no later one is upper-case |
| Capitalize.CapitalizeFirstLetterUnique | src/index.ts:39-41 | those four properties determine the result uniquely, so they fully specify `capitalizeFirstLetter` |
| Capitalize.CapitalizePath | src/index.ts:43-45 | the split/map/join keeps the length, upper-cases the character at the start and every character right after a `/`, and lower-cases every other character |
| Capitalize.CapitalizePathPieces | src/index.ts:43-45 | the result splits into exactly as many pieces as the subject, and each is the subject's piece capitalized (empty pieces stay empty) |
| Capitalize.CapitalizePathKeepsSlashesAndNonLetters | src/index.ts:43-45 | slashes stay exactly where they were, non-letters are never changed, letters only change case |
| Capitalize.CapitalizePathNeverError | src/index.ts:43-53 | the capitalized subject has the subject's length and is never the fallback name `error` |
| Capitalize.CapitalizePathExample | src/index.ts:43-45 | `invoices/march` becomes `Invoices/March` |
| PosixPath.Resolve | src/index.ts:30 | resolution keeps a stack in canonical form (`..` only before names), yields only names at an absolute root, and never introduces a slash into a piece |
| PosixPath.ResolveAppend | src/index.ts:30 | resolving a list of pieces in two parts gives the same result as resolving it in one pass |
| PosixPath.IsAbsolute | src/index.ts:26 | POSIX `path.isAbsolute`: the path is non-empty and begins with `/` |
| PosixPath.Normalize | src/index.ts:30 | `path.normalize` never returns the empty string and returns an absolute path exactly for an absolute input |
| PosixPath.PathJoin | src/index.ts:54 | `path.join` onto a non-empty first argument is absolute exactly when that argument is |
| PosixPath.PathResolve | src/index.ts:49 | `path.resolve` against an absolute working directory gives a canonical absolute path: `/` or `/`-separated names with no empty, `.` or `..` piece |
| PosixPath.LeadingUpIffClimbs | src/index.ts:30-34 | the resolved pieces of a relative path start with `..` exactly when a depth-counting walk over its pieces climbs above the start |
| PosixPath.NormalizeStartsWithDots | src/index.ts:30-32 | the normalized string starts with the characters `..` exactly when its first resolved piece does |
| PosixPath.ResolveBeneath | src/index.ts:54 | pieces that never climb above the names on a stack leave everything below those names untouched |
| PosixPath.JoinBeneathRoot | src/index.ts:54 | joining a canonical absolute root with a path that never climbs gives the root itself or a path strictly below it |
| RelativePath.HasRootPrefix | src/index.ts:25 | the negative look-ahead of the pattern: a leading `/` or `\`, or a letter, a colon and a separator; its consequences are stated by `RelativePath.PatternRejections` |
| RelativePath.MatchesPattern | src/index.ts:25-26 | one or more characters, none of them NUL, `<`, `>`, `:`, `"`, the vertical bar, `?` or `*`, and no root prefix |
| RelativePath.IsValidRelativePath | src/index.ts:24-37 | the pattern matches, the path is not absolute, and its normalized form does not begin with the characters `..`; the exact verdict is `RelativePath.ValidRelativePathIff` |
| RelativePath.PatternRejections | src/index.ts:25-27 | the empty string, any string containing NUL, `<`, `>`, `:`, `"`, the vertical bar, `?` or `*`, a leading `/` or `\`, and a drive letter with colon and separator are all refused |
| RelativePath.ValidRelativePathIff | src/index.ts:24-37 | accepted exactly when the pattern matches, the walk never climbs above the start, and the first resolved piece is not a name beginning with `..` |
| RelativePath.AcceptedStaysInside | src/index.ts:24-37 | an accepted path never climbs above its starting directory, and all its resolved pieces are names |
| RelativePath.ParentPathRejected | src/index.ts:24-37 | `../../etc` is refused |
| RelativePath.LeadingParentRefused | src/index.ts:24-37 | every path whose first `/`-piece is `..` climbs above its start and is refused |
| RelativePath.DottedNameRefused | src/index.ts:30-34 | every single name that merely begins with `..` (such as `..foo`) never climbs, yet is refused by the prefix test |
| RelativePath.ClimbBackRejected | src/index.ts:30-34 | `a/../..` is refused even though it does not begin with `..` |
| RelativePath.NameThenTwoUpsRefused | src/index.ts:30-34 | `name/../..` is refused for every plain name |
| RelativePath.DottedNameRejected | src/index.ts:30-34 | `..foo` never climbs yet is refused by the prefix test |
| RelativePath.ErrorFolderValid | src/index.ts:51-53 | the fallback folder `error` is itself accepted |
| RelativePath.ResolveCapitalized | src/index.ts:30-50 | resolving capitalized pieces gives the capitalized resolution of the original pieces |
| RelativePath.CapitalizedValidIff | src/index.ts:50-51 | a capitalized subject is accepted exactly when the subject itself is |
| Download.ChooseFolder | src/index.ts:50-53 | the folder is always accepted; it is `error` exactly when the subject is not a valid relative path, and otherwise it is the capitalized subject |
| Download.ChooseFolderKeepsGoodSubject | src/index.ts:50-53 | subject `invoices/march` goes to folder `Invoices/March` |
| Download.ChooseFolderRejectsParentSubject | src/index.ts:50-53 | subject `../../etc` goes to folder `error` |
| Download.IsSkipped | src/index.ts:48 | a mail is processed only when it has a non-empty subject and a non-empty list of attachments |
| Download.DownloadDir | src/index.ts:49-54 | the mail's folder is `path.join` of the resolved output root and the chosen folder; it is absolute exactly when the root is |
| Download.AttachmentName | src/index.ts:63 | the file name is never empty; it is the attachment's own name when that name is present and non-empty, and `attachment` when it is missing or empty |
| Download.Destination | src/index.ts:61-64 | an attachment goes to `path.join` of the mail's folder and its name; `Download.DestinationInsideFolder` and `Download.FilenameCanLeaveFolder` say where that lands |
| Download.DestinationInsideFolder | src/index.ts:61-64 | in a canonical absolute folder, a file name whose walk never climbs above its start gives a path inside the folder |
| Download.DownloadAttachments | src/index.ts:47-70 | a skipped mail changes neither directories nor files; otherwise the folder exists afterwards (or a file already occupied its path), no other directory appears, and the files are those of the write loop; folder creation and file writes never fail in the model (see "Left out") |
| Download.WriteAttachments | src/index.ts:60-68 | the `for ... of` loop: each attachment's content written to its destination, in list order, as successive map updates; `Download.WriteAttachmentsLastWins` gives the resulting file map |
| Download.WriteAttachmentsLastWins | src/index.ts:60-68 | after the loop exactly the old files and the destinations exist; each destination holds the content of the last attachment written there; every other file is unchanged |
| Download.LastWriteWins | src/index.ts:66 | for any sequence of file writes, exactly the old paths and the written paths exist afterwards; a written path holds its last write; every other path is unchanged |
| Download.SameNameOverwrites | src/index.ts:60-68 | of two attachments with the same name, the file holds the second one's content |
| Download.DownloadDirInsideRoot | src/index.ts:49-54 | whatever the subject, the mail's folder is the output root or lies below it |
| Download.FilenameCanLeaveFolder | src/index.ts:61-64 | in folder `/name`, an attachment named `../x` is written to `/x`, outside the folder |
| Mailbox.ParsedPrefix | src/index.ts:129-137 | the processed messages are exactly those before the first parser failure: all of them parsed, and the next one failed |
| Mailbox.DownloadAll | src/index.ts:129-137 | the file system after the loop: the attachment step of each given mail applied in order; `Mailbox.ProcessMessages` and `Cli.Run` are stated against it |
| Mailbox.FlaggedUids | src/index.ts:139-141 | the UIDs flagged `Deleted` are a prefix of the searched messages' UIDs: never more than there are messages, and the i-th flag is the i-th message's UID |
| Mailbox.ProcessMessages | src/index.ts:129-142 | the loop completes exactly when every message parses; the file system is the attachment step applied to the processed messages in order; the flags are `FlaggedUids`; folder creation and file writes never fail in the model (see "Left out") |
| Mailbox.FlaggedAreProcessed | src/index.ts:139-141 | with deletion on, the flagged UIDs are the processed messages' UIDs in order, skipped mails included, and all UIDs when every message parses; with deletion off none |
| Mailbox.SkippedMailsChangeNothing | src/index.ts:48 | a run over mails that are all skipped leaves the file system unchanged |
| Mailbox.CreatedDirsInsideRoot | src/index.ts:49-58 | the loop removes no directory, and every directory it creates lies under the output root |
| Mailbox.Expunge | src/index.ts:144 | closing with expunge never leaves more UIDs than there were messages; a message without `\Deleted` whose UID was not flagged remains; a remaining UID was not flagged and belongs to a message that did not already carry `\Deleted` |
| Mailbox.ExpungeRemovesDeleted | src/index.ts:139-144 | with unique UIDs, a message survives the close exactly when it neither carried `\Deleted` before the run nor was flagged by it |
| Mailbox.NoDeleteKeepsMailbox | src/index.ts:139-149 | without deletion, the close removes exactly the messages that already carried `\Deleted` (unique UIDs), and a mailbox with none of them survives whole, in order |
| Mailbox.DeleteClearsMailbox | src/index.ts:139-149 | with deletion and every message parsed, the close removes every message of the mailbox |
| Cli.ValidatePath | src/index.ts:9-22 | the process exits, with code 0, exactly when the path neither exists nor can be created; the directory changes only to the given path, and only when that path did not exist |
| Cli.ValidateOutput | src/index.ts:81-83 | start-up exits only for a non-empty output option, with code 0; otherwise the directory is `./out` or the requested path |
| Cli.OutputDirectoryChoice | src/index.ts:9-22 | start-up exits (with code 0) exactly when a non-empty output path neither exists nor can be created; the directory used is `./out` or the requested path, and it is a requested path other than `./out` exactly when that path was just created |
| Cli.Run | src/index.ts:96-154 | a run exits exactly when start-up does; a failed search changes nothing; otherwise the mailbox is expunged exactly when every message parses, the flags are the processed UIDs (none without deletion), the file system is the attachment step applied to the processed messages under the resolved output root, and every new directory lies under that root; folder creation and file writes never fail in the model (see "Left out") |

## Left out

- The IMAP session (`connect`, `openBox`, `search`, `addFlags`, `closeBox`, `end`) goes through a foreign library over the network. It is replaced by a list of messages, each with its UID, whether it already carries `\Deleted`, and the parsed mail. `None` for the whole list stands for any failure up to the search.
- `simpleParser` and the `Imap-Id` header prepended before parsing (src/index.ts:131-134) are a foreign MIME library. A message carries the parsed mail, or `None` when the parser throws.
- Reading the configuration file (src/index.ts:72-76, 85-89) is I/O. A missing or unreadable file is covered by the failed search.
- Command-line parsing with commander (src/index.ts:97-109) is a foreign library, so `deleteAfterParse` is a given boolean. commander stores `--no-delete` as `options.delete`, so the test of `options.noDelete` at line 91 may never turn deletion off; the model makes no claim that the flag reaches the variable.
- Real `fs` calls, `process.cwd()` and `process.exit` are I/O. Existence and the success of `mkdir` at start-up are boolean parameters, the working directory is a parameter, and the exit is an outcome.
- Console logging is output only; nothing is decided by it.
- Download.DownloadAttachments: `mkdirSync(..., { recursive: true })` is modelled as adding only the target directory, not its ancestors. A trailing `/` on a folder name gives a directory path that the set does not identify with the same path without the slash. Neither creating the folder nor writing a file ever fails: the `mkdirSync` and `writeFileSync` failures listed under `Mailbox.ProcessMessages`, and permission errors, are not modelled.
- Capitalize.CapitalizeFirstLetter: `toUpperCase` / `toLocaleLowerCase` are modelled for ASCII letters only. Full Unicode case mapping can change a string's length, and the locale is not modelled.
- PosixPath.Normalize: only the POSIX flavour of Node's `path` module is modelled. Windows separators and drive letters are ordinary characters here, except where the validation pattern tests for them.
- Async sequencing, the unawaited `addFlags` promise and the error callback of `closeBox` are not modelled. Messages are processed strictly in order, and a flag is set when the loop reaches it.
- Cli.Run: creating the output directory at start-up is not recorded in the abstract file system; only its outcome decides the output directory.
- Mailbox.ProcessMessages: a `mkdirSync` or a write that throws is not modelled. `mkdirSync(..., { recursive: true })` at src/index.ts:57 fails when some ancestor of the mail's folder is a regular file (ENOTDIR; for example an earlier attachment named `../Invoices` in folder `/out/X` wrote the file `/out/Invoices`, and a later subject `invoices/march` needs `/out/Invoices/March`) or when permission is denied (EACCES). `writeFileSync` fails when the attachment name has a directory part whose parent does not exist (`sub/x`: ENOENT), when the name resolves to the folder itself or to one of its ancestors (`.`, `..`, `x/..`: EISDIR), and when a file occupies the folder path (ENOTDIR; `existsSync` is true there, so `mkdirSync` is skipped). Any of these errors reaches the `catch` at src/index.ts:151: the loop stops at that message, which is not flagged, and the mailbox is neither closed nor expunged. The model instead adds the directory, records a file at that path and goes on, so the loop's `completed` is then true whenever every message parses.
- Cli.Run: for the same reason, a run in which such a `mkdirSync` or write throws is reported as `Ended` with the loop's file system, and as expunged when every message parses, whereas the program ends in the `catch` at src/index.ts:151 without closing the mailbox.
