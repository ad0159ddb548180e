/**
 * The message loop of `main`: every searched message is parsed, its
 * attachments are written, and its UID is flagged `Deleted` when
 * `deleteAfterParse` is set. A parser failure ends the loop (the error is
 * caught outside it); closing the mailbox expunges the flagged messages.
 */
module Mailbox {

  import opened Wrappers
  import opened PosixPath
  import opened Download

  /**
   * A searched message: its UID, whether it already carries the `\Deleted`
   * flag when the run starts, and the parsed mail (`None` when the parser
   * throws). The search criterion is `ALL`, so the searched messages are the
   * whole mailbox.
   */
  datatype Message = Message(uid: nat, deleted: bool, parsed: Option<Mail>)

  predicate AllParsed(msgs: seq<Message>)
  {
    forall i :: 0 <= i < |msgs| ==> msgs[i].parsed.Some?
  }

  /** How many messages are processed: those before the first one the parser fails on. */
  function ParsedPrefix(msgs: seq<Message>): (n: nat)
    ensures n <= |msgs|
    ensures AllParsed(msgs[..n])
    ensures n < |msgs| ==> msgs[n].parsed.None?
  {
    if |msgs| == 0 || msgs[0].parsed.None? then 0
    else
      var n := 1 + ParsedPrefix(msgs[1..]);
      assert forall i :: 1 <= i < n ==> msgs[i] == msgs[1..][i - 1];
      n
  }

  /** UIDs are unique within a mailbox (section 2.3.1.1 of RFC 3501). */
  predicate DistinctUids(msgs: seq<Message>)
  {
    forall i, j :: 0 <= i < j < |msgs| ==> msgs[i].uid != msgs[j].uid
  }

  function Uids(msgs: seq<Message>): seq<nat>
  {
    seq(|msgs|, i requires 0 <= i < |msgs| => msgs[i].uid)
  }

  /** The attachment step applied to each message in order. */
  function DownloadAll(fs: FileSystem, root: string, msgs: seq<Message>): FileSystem
    requires AllParsed(msgs)
    decreases |msgs|
  {
    if |msgs| == 0 then fs
    else
      var last := |msgs| - 1;
      assert AllParsed(msgs[..last]) by { assert forall i :: 0 <= i < last ==> msgs[..last][i] == msgs[i]; }
      DownloadAttachments(DownloadAll(fs, root, msgs[..last]), root, msgs[last].parsed.value)
  }

  /** The UIDs flagged `Deleted`: those of the processed messages, or none. */
  function FlaggedUids(msgs: seq<Message>, deleteAfterParse: bool): (flagged: seq<nat>)
    ensures |flagged| <= |msgs|
    ensures forall i :: 0 <= i < |flagged| ==> flagged[i] == msgs[i].uid
  {
    if deleteAfterParse then Uids(msgs[..ParsedPrefix(msgs)]) else []
  }

  /**
   * The `for` loop over the search results. `completed` is false when the
   * parser failed on some message; the messages before it stay processed and
   * flagged.
   */
  method ProcessMessages(fs: FileSystem, root: string, msgs: seq<Message>, deleteAfterParse: bool)
    returns (after: FileSystem, flagged: seq<nat>, completed: bool)
    ensures completed <==> AllParsed(msgs)
    ensures after == DownloadAll(fs, root, msgs[..ParsedPrefix(msgs)])
    ensures flagged == FlaggedUids(msgs, deleteAfterParse)
  {
    after := fs;
    flagged := [];
    var i := 0;
    while i < |msgs|
      invariant i <= |msgs|
      invariant AllParsed(msgs[..i])
      invariant after == DownloadAll(fs, root, msgs[..i])
      invariant flagged == (if deleteAfterParse then Uids(msgs[..i]) else [])
    {
      match msgs[i].parsed {
        case None =>
          ParsedPrefixStops(msgs, i);
          completed := false;
          return;
        case Some(mail) =>
          ProcessedStep(fs, root, msgs, i);
          after := DownloadAttachments(after, root, mail);
          if deleteAfterParse {
            flagged := flagged + [msgs[i].uid];
          }
      }
      i := i + 1;
    }
    assert msgs[..i] == msgs;
    completed := true;
  }

  /** The first message the parser fails on ends the processed prefix. */
  lemma ParsedPrefixStops(msgs: seq<Message>, i: nat)
    requires i < |msgs| && AllParsed(msgs[..i]) && msgs[i].parsed.None?
    ensures ParsedPrefix(msgs) == i
    ensures !AllParsed(msgs)
  {
    assert forall k :: 0 <= k < i ==> msgs[..i][k] == msgs[k];
  }

  /** One more parsed message extends the processed prefix by one step. */
  lemma ProcessedStep(fs: FileSystem, root: string, msgs: seq<Message>, i: nat)
    requires i < |msgs| && AllParsed(msgs[..i]) && msgs[i].parsed.Some?
    ensures AllParsed(msgs[..i + 1])
    ensures DownloadAll(fs, root, msgs[..i + 1])
         == DownloadAttachments(DownloadAll(fs, root, msgs[..i]), root, msgs[i].parsed.value)
    ensures Uids(msgs[..i + 1]) == Uids(msgs[..i]) + [msgs[i].uid]
  {
    assert msgs[..i + 1][..i] == msgs[..i];
  }

  /**
   * Flagging: with `deleteAfterParse` the flagged UIDs are the processed
   * messages' UIDs in order, skipped mails included; without it none.
   */
  lemma FlaggedAreProcessed(msgs: seq<Message>, deleteAfterParse: bool)
    ensures !deleteAfterParse ==> FlaggedUids(msgs, deleteAfterParse) == []
    ensures deleteAfterParse ==>
      && |FlaggedUids(msgs, deleteAfterParse)| == ParsedPrefix(msgs)
      && forall i :: 0 <= i < ParsedPrefix(msgs) ==> FlaggedUids(msgs, deleteAfterParse)[i] == msgs[i].uid
    ensures deleteAfterParse && AllParsed(msgs) ==> FlaggedUids(msgs, deleteAfterParse) == Uids(msgs)
  {
    if AllParsed(msgs) {
      assert msgs[..ParsedPrefix(msgs)] == msgs;
    }
  }

  /** Mails that are skipped write nothing and create no directory. */
  lemma {:induction false} SkippedMailsChangeNothing(fs: FileSystem, root: string, msgs: seq<Message>)
    requires AllParsed(msgs)
    requires forall i :: 0 <= i < |msgs| ==> IsSkipped(msgs[i].parsed.value)
    ensures DownloadAll(fs, root, msgs) == fs
    decreases |msgs|
  {
    if |msgs| > 0 {
      var last := |msgs| - 1;
      assert forall i :: 0 <= i < last ==> msgs[..last][i] == msgs[i];
      SkippedMailsChangeNothing(fs, root, msgs[..last]);
    }
  }

  /** Every directory the loop creates lies under the output root. */
  lemma {:induction false} CreatedDirsInsideRoot(fs: FileSystem, root: string, msgs: seq<Message>)
    requires AllParsed(msgs)
    requires IsCanonicalAbsolute(root)
    ensures fs.dirs <= DownloadAll(fs, root, msgs).dirs
    ensures forall d :: d in DownloadAll(fs, root, msgs).dirs && d !in fs.dirs ==> IsInside(root, d)
    decreases |msgs|
  {
    if |msgs| > 0 {
      var last := |msgs| - 1;
      assert forall i :: 0 <= i < last ==> msgs[..last][i] == msgs[i];
      CreatedDirsInsideRoot(fs, root, msgs[..last]);
      MailDirInsideRoot(DownloadAll(fs, root, msgs[..last]), root, msgs[last].parsed.value);
    }
  }

  /** One mail's step removes no directory and creates none outside the root. */
  lemma MailDirInsideRoot(fs: FileSystem, root: string, mail: Mail)
    requires IsCanonicalAbsolute(root)
    ensures fs.dirs <= DownloadAttachments(fs, root, mail).dirs
    ensures forall d :: d in DownloadAttachments(fs, root, mail).dirs && d !in fs.dirs ==> IsInside(root, d)
  {
    if !IsSkipped(mail) {
      DownloadDirInsideRoot(root, mail.subject.value);
    }
  }

  /**
   * `closeBox(true)`: every message carrying `\Deleted` is removed, whether
   * it was flagged before the run or by the loop; the UIDs of the others
   * remain.
   */
  function Expunge(mailbox: seq<Message>, flagged: seq<nat>): (remaining: seq<nat>)
    ensures |remaining| <= |mailbox|
    ensures forall i :: 0 <= i < |mailbox| && !mailbox[i].deleted && mailbox[i].uid !in flagged ==>
      mailbox[i].uid in remaining
    ensures forall u :: u in remaining ==>
      u !in flagged && exists i :: 0 <= i < |mailbox| && mailbox[i].uid == u && !mailbox[i].deleted
  {
    if |mailbox| == 0 then []
    else
      var head := if mailbox[0].deleted || mailbox[0].uid in flagged then [] else [mailbox[0].uid];
      var rest := Expunge(mailbox[1..], flagged);
      assert forall i :: 1 <= i < |mailbox| ==> mailbox[i] == mailbox[1..][i - 1];
      head + rest
  }

  /**
   * Without `deleteAfterParse` the close removes exactly the messages that
   * already carried `\Deleted`; a mailbox with none of them survives whole.
   */
  lemma NoDeleteKeepsMailbox(msgs: seq<Message>)
    ensures DistinctUids(msgs) ==> forall i :: 0 <= i < |msgs| ==>
      (msgs[i].uid in Expunge(msgs, FlaggedUids(msgs, false)) <==> !msgs[i].deleted)
    ensures (forall i :: 0 <= i < |msgs| ==> !msgs[i].deleted) ==>
      Expunge(msgs, FlaggedUids(msgs, false)) == Uids(msgs)
  {
    if DistinctUids(msgs) {
      ExpungeRemovesDeleted(msgs, []);
    }
    if forall i :: 0 <= i < |msgs| ==> !msgs[i].deleted {
      ExpungeNothing(msgs);
    }
  }

  /** With unique UIDs a message survives the close exactly when it carries no `\Deleted` flag. */
  lemma ExpungeRemovesDeleted(mailbox: seq<Message>, flagged: seq<nat>)
    requires DistinctUids(mailbox)
    ensures forall i :: 0 <= i < |mailbox| ==>
      (mailbox[i].uid in Expunge(mailbox, flagged) <==> !mailbox[i].deleted && mailbox[i].uid !in flagged)
  {
    var remaining := Expunge(mailbox, flagged);
    forall i | 0 <= i < |mailbox| && mailbox[i].uid in remaining
      ensures !mailbox[i].deleted
    {
      var j :| 0 <= j < |mailbox| && mailbox[j].uid == mailbox[i].uid && !mailbox[j].deleted;
      assert i == j;
    }
  }

  lemma {:induction false} ExpungeNothing(mailbox: seq<Message>)
    requires forall i :: 0 <= i < |mailbox| ==> !mailbox[i].deleted
    ensures Expunge(mailbox, []) == Uids(mailbox)
  {
    if |mailbox| > 0 {
      ExpungeNothing(mailbox[1..]);
      assert Uids(mailbox) == [mailbox[0].uid] + Uids(mailbox[1..]);
    }
  }

  /** With `deleteAfterParse` and every message parsed, the close empties the mailbox. */
  lemma DeleteClearsMailbox(msgs: seq<Message>)
    requires AllParsed(msgs)
    ensures Expunge(msgs, FlaggedUids(msgs, true)) == []
  {
    FlaggedAreProcessed(msgs, true);
    ExpungeAll(msgs, Uids(msgs));
  }

  lemma {:induction false} ExpungeAll(mailbox: seq<Message>, flagged: seq<nat>)
    requires forall i :: 0 <= i < |mailbox| ==> mailbox[i].uid in flagged
    ensures Expunge(mailbox, flagged) == []
  {
    if |mailbox| > 0 {
      ExpungeAll(mailbox[1..], flagged);
    }
  }
}
