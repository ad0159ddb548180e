/**
 * `downloadAttachments`: which mails are skipped, which folder a mail's
 * attachments go to, and which files are written. The file system is an
 * abstract value: a set of directories and a map from file path to bytes.
 */
module Download {

  import opened Wrappers
  import opened Segments
  import opened PosixPath
  import opened Capitalize
  import opened RelativePath

  newtype Byte = x: int | 0 <= x < 256

  datatype Attachment = Attachment(filename: Option<string>, content: seq<Byte>)

  datatype Mail = Mail(subject: Option<string>, attachments: Option<seq<Attachment>>)

  datatype FileSystem = FileSystem(dirs: set<string>, files: map<string, seq<Byte>>)

  const FallbackFolder: string := "error"

  const DefaultName: string := "attachment"

  /** A mail without a subject, with an empty subject, or without attachments is not processed. */
  predicate IsSkipped(mail: Mail)
  {
    || mail.subject.None? || mail.subject.value == ""
    || mail.attachments.None? || |mail.attachments.value| == 0
  }

  /**
   * The folder for a subject: the capitalized subject when it is a valid
   * relative path, `error` otherwise. The fallback is taken exactly when the
   * subject itself is not a valid relative path.
   */
  function ChooseFolder(subject: string): (folder: string)
    ensures IsValidRelativePath(folder)
    ensures folder == FallbackFolder <==> !IsValidRelativePath(subject)
    ensures folder != FallbackFolder ==> folder == CapitalizePath(subject)
  {
    var capitalized := CapitalizePath(subject);
    CapitalizedValidIff(subject);
    CapitalizePathNeverError(subject);
    ErrorFolderValid();
    if |capitalized| == 0 || !IsValidRelativePath(capitalized) then FallbackFolder else capitalized
  }

  lemma ChooseFolderKeepsGoodSubject()
    ensures ChooseFolder("invoices/march") == "Invoices/March"
  {
    CapitalizePathExample();
    GoodSubjectValid();
    var folder := ChooseFolder("invoices/march");
    assert folder != FallbackFolder;
  }

  /** Two plain names separated by a slash form a valid relative path. */
  lemma TwoNamesValid(s: string, first: string, second: string)
    requires s == first + [Slash] + second
    requires IsName(first) && IsName(second) && SlashFree(first) && SlashFree(second)
    requires MatchesPattern(s)
    requires first[0] != '.'
    ensures IsValidRelativePath(s)
  {
    SplitTwo(first, second);
    ResolveNames([], [first, second], true);
    assert [] + [first, second] == [first, second];
    ValidRelativePathIff(s);
  }

  lemma GoodSubjectValid()
    ensures IsValidRelativePath("invoices/march")
  {
    GoodSubjectShape();
    TwoNamesValid("invoices/march", "invoices", "march");
  }

  lemma GoodSubjectShape()
    ensures "invoices/march" == "invoices" + [Slash] + "march"
    ensures MatchesPattern("invoices/march")
  {
    var good := "invoices/march";
    forall i | 0 <= i < |good|
      ensures !IsForbiddenChar(good[i])
    {
      assert good[i] in good;
    }
  }

  lemma ChooseFolderRejectsParentSubject()
    ensures ChooseFolder("../../etc") == FallbackFolder
  {
    ParentPathRejected();
  }

  /** The file name an attachment is saved under: its own, or `attachment` when it has none. */
  function AttachmentName(a: Attachment): (name: string)
    ensures |name| > 0
    ensures a.filename.Some? && a.filename.value != "" ==> name == a.filename.value
    ensures a.filename.None? || a.filename.value == "" ==> name == DefaultName
  {
    if a.filename.None? || a.filename.value == "" then DefaultName else a.filename.value
  }

  /** `path.join(path.resolve(directory), folder)` for an already resolved `root`. */
  function DownloadDir(root: string, subject: string): (dir: string)
    ensures |root| > 0 ==> (IsAbsolute(dir) <==> IsAbsolute(root))
  {
    PathJoin(root, ChooseFolder(subject))
  }

  /** `path.join(downloadDir, attachment.filename || "attachment")`. */
  function Destination(dir: string, a: Attachment): string
  {
    PathJoin(dir, AttachmentName(a))
  }

  /** One file write: the path and the bytes written to it. */
  datatype Write = Write(path: string, content: seq<Byte>)

  /** Writes applied in order: a later write to a path replaces an earlier one. */
  function ApplyWrites(files: map<string, seq<Byte>>, ws: seq<Write>): map<string, seq<Byte>>
    decreases |ws|
  {
    if |ws| == 0 then files
    else ApplyWrites(files[ws[0].path := ws[0].content], ws[1..])
  }

  /** Some write of the list goes to `path`. */
  predicate WrittenTo(ws: seq<Write>, path: string)
  {
    exists j :: 0 <= j < |ws| && ws[j].path == path
  }

  /** No later write of the list goes to the same path as the `j`-th. */
  predicate IsLastWrite(ws: seq<Write>, j: nat)
    requires j < |ws|
  {
    forall k :: j < k < |ws| ==> ws[k].path != ws[j].path
  }

  /**
   * Last write wins: afterwards exactly the old paths and the written paths
   * exist, each written path holds the content of its last write, and every
   * other path is unchanged.
   */
  lemma {:induction false} LastWriteWins(files: map<string, seq<Byte>>, ws: seq<Write>)
    ensures forall p :: p in ApplyWrites(files, ws) <==> p in files || WrittenTo(ws, p)
    ensures forall j :: 0 <= j < |ws| && IsLastWrite(ws, j) ==>
      ws[j].path in ApplyWrites(files, ws) && ApplyWrites(files, ws)[ws[j].path] == ws[j].content
    ensures forall p :: p in files && !WrittenTo(ws, p) ==>
      p in ApplyWrites(files, ws) && ApplyWrites(files, ws)[p] == files[p]
    decreases |ws|
  {
    if |ws| > 0 {
      var next := files[ws[0].path := ws[0].content];
      var rest := ws[1..];
      LastWriteWins(next, rest);
      assert ApplyWrites(files, ws) == ApplyWrites(next, rest);
      forall p
        ensures WrittenTo(ws, p) <==> p == ws[0].path || WrittenTo(rest, p)
      {
        if WrittenTo(rest, p) {
          var j :| 0 <= j < |rest| && rest[j].path == p;
          assert ws[j + 1] == rest[j];
        }
        if WrittenTo(ws, p) && p != ws[0].path {
          var j :| 0 <= j < |ws| && ws[j].path == p;
          assert rest[j - 1] == ws[j];
        }
      }
      forall j | 0 <= j < |ws| && IsLastWrite(ws, j)
        ensures ws[j].path in ApplyWrites(files, ws) && ApplyWrites(files, ws)[ws[j].path] == ws[j].content
      {
        if j > 0 {
          assert rest[j - 1] == ws[j];
          assert IsLastWrite(rest, j - 1) by {
            forall k | j - 1 < k < |rest|
              ensures rest[k].path != rest[j - 1].path
            {
              assert rest[k] == ws[k + 1];
            }
          }
        }
      }
    }
  }

  /** The writes of the `for ... of` loop: each attachment's content to its destination, in order. */
  function Writes(dir: string, atts: seq<Attachment>): seq<Write>
  {
    seq(|atts|, j requires 0 <= j < |atts| => Write(Destination(dir, atts[j]), atts[j].content))
  }

  function WriteAttachments(files: map<string, seq<Byte>>, dir: string, atts: seq<Attachment>)
    : map<string, seq<Byte>>
  {
    ApplyWrites(files, Writes(dir, atts))
  }

  /** Some attachment of the list is written to `path`. */
  predicate WrittenBy(dir: string, atts: seq<Attachment>, path: string)
  {
    exists j :: 0 <= j < |atts| && Destination(dir, atts[j]) == path
  }

  /** No later attachment of the list is written to the same path as the `j`-th. */
  predicate IsLastWriter(dir: string, atts: seq<Attachment>, j: nat)
    requires j < |atts|
  {
    forall k :: j < k < |atts| ==> Destination(dir, atts[k]) != Destination(dir, atts[j])
  }

  /**
   * For the attachment loop: afterwards exactly the old files and the
   * destinations exist, each destination holds the content of the last
   * attachment written there, and every other file is unchanged.
   */
  lemma WriteAttachmentsLastWins(files: map<string, seq<Byte>>, dir: string, atts: seq<Attachment>)
    ensures var r := WriteAttachments(files, dir, atts);
      forall p :: p in r <==> p in files || WrittenBy(dir, atts, p)
    ensures var r := WriteAttachments(files, dir, atts);
      forall j :: 0 <= j < |atts| && IsLastWriter(dir, atts, j) ==>
        Destination(dir, atts[j]) in r && r[Destination(dir, atts[j])] == atts[j].content
    ensures var r := WriteAttachments(files, dir, atts);
      forall p :: p in files && !WrittenBy(dir, atts, p) ==> p in r && r[p] == files[p]
  {
    var ws := Writes(dir, atts);
    LastWriteWins(files, ws);
    forall p
      ensures WrittenBy(dir, atts, p) <==> WrittenTo(ws, p)
    {
      if WrittenBy(dir, atts, p) {
        var j :| 0 <= j < |atts| && Destination(dir, atts[j]) == p;
        assert ws[j].path == p;
      }
    }
    forall j | 0 <= j < |atts| && IsLastWriter(dir, atts, j)
      ensures IsLastWrite(ws, j)
    {
    }
  }

  /** Two attachments with the same name: the file holds the second one's content. */
  lemma SameNameOverwrites(files: map<string, seq<Byte>>, dir: string, first: Attachment, second: Attachment)
    requires AttachmentName(first) == AttachmentName(second)
    ensures var r := WriteAttachments(files, dir, [first, second]);
      Destination(dir, second) in r && r[Destination(dir, second)] == second.content
  {
    WriteAttachmentsLastWins(files, dir, [first, second]);
    assert IsLastWriter(dir, [first, second], 1);
  }

  /**
   * The attachment step of one mail. A skipped mail changes nothing.
   * Otherwise the mail's folder is created unless something already exists
   * at that path, no other directory appears, and the files are those of
   * `WriteAttachments`.
   */
  function DownloadAttachments(fs: FileSystem, root: string, mail: Mail): (r: FileSystem)
    ensures IsSkipped(mail) ==> r == fs
    ensures !IsSkipped(mail) ==>
      var dir := DownloadDir(root, mail.subject.value);
      && (dir in r.dirs || dir in fs.files)
      && fs.dirs <= r.dirs <= fs.dirs + {dir}
      && r.files == WriteAttachments(fs.files, dir, mail.attachments.value)
  {
    if IsSkipped(mail) then fs
    else
      var dir := DownloadDir(root, mail.subject.value);
      var dirs := if dir in fs.dirs || dir in fs.files then fs.dirs else fs.dirs + {dir};
      FileSystem(dirs, WriteAttachments(fs.files, dir, mail.attachments.value))
  }

  /** Every mail's folder lies under the output root, whatever its subject. */
  lemma DownloadDirInsideRoot(root: string, subject: string)
    requires IsCanonicalAbsolute(root)
    ensures IsInside(root, DownloadDir(root, subject))
  {
    var folder := ChooseFolder(subject);
    AcceptedStaysInside(folder);
    JoinBeneathRoot(root, folder);
  }

  /**
   * The file lands in the mail's folder exactly as far as its name allows: a
   * name whose walk never climbs above its start gives a path inside the
   * folder.
   */
  lemma DestinationInsideFolder(dir: string, a: Attachment)
    requires IsCanonicalAbsolute(dir)
    ensures !ClimbsAbove(Split(AttachmentName(a)), 0) ==> IsInside(dir, Destination(dir, a))
  {
    if !ClimbsAbove(Split(AttachmentName(a)), 0) {
      JoinBeneathRoot(dir, AttachmentName(a));
    }
  }

  /**
   * The attachment's own file name is not checked: in a folder `/name`, an
   * attachment called `../x` is written to `/x`, outside the folder.
   */
  lemma FilenameCanLeaveFolder(name: string, x: string, a: Attachment)
    requires IsName(name) && SlashFree(name) && IsName(x) && SlashFree(x)
    requires a.filename == Some(".." + [Slash] + x)
    ensures Destination([Slash] + name, a) == [Slash] + x
    ensures !StartsWith(Destination([Slash] + name, a), [Slash] + name + [Slash])
  {
    var dir := [Slash] + name;
    var full := dir + [Slash] + (".." + [Slash] + x);
    assert Destination(dir, a) == Normalize(full);
    ParentPieces(name, x);
    var r := Normalize(full);
    assert r == [Slash] + x;
    var prefix := dir + [Slash];
    if |prefix| <= |r| {
      assert r[|name| + 1] == x[|name|] != Slash;
      assert r[..|prefix|][|name| + 1] != prefix[|name| + 1];
    }
  }

  /** The absolute path `/name/../x` resolves to the single piece `x`. */
  lemma ParentPieces(name: string, x: string)
    requires IsName(name) && SlashFree(name) && IsName(x) && SlashFree(x)
    ensures Pieces([Slash] + name + [Slash] + (".." + [Slash] + x)) == [x]
  {
    ParentSplit(name, x);
    ParentResolve(name, x);
  }

  lemma ParentSplit(name: string, x: string)
    requires SlashFree(name) && SlashFree(x)
    ensures Split([Slash] + name + [Slash] + (".." + [Slash] + x)) == ["", name, "..", x]
  {
    var up := ".." + [Slash] + x;
    var tail := name + [Slash] + up;
    assert [Slash] + name + [Slash] + up == "" + [Slash] + tail;
    SplitAppend("", tail);
    SplitAppend(name, up);
    SplitTwo("..", x);
    SplitSlashFree(name);
  }

  lemma ParentResolve(name: string, x: string)
    requires IsName(name) && IsName(x)
    ensures Resolve([], ["", name, "..", x], false) == [x]
  {
    var pieces := ["", name, "..", x];
    assert pieces[1..][0] == name && pieces[1..][1..] == pieces[2..];
    assert Resolve([], pieces, false) == Resolve([], pieces[1..], false);
    assert Resolve([], pieces[1..], false) == Resolve([] + [name], pieces[2..], false);
    assert [] + [name] == [name];
    assert Resolve([name], pieces[2..], false) == Resolve([], [x], false);
    ResolveNames([], [x], false);
  }
}
