/** What each operation of the program does to the files and to the history,
    stated as a function of the state before it and of the answers and
    outcomes it meets: confirmations, failed copies and failed writes. The
    program's methods are proved equal to these functions; the lemmas here
    say what the functions guarantee. */
module Flows {
  import opened Text
  import opened History
  import opened Extract
  import opened Cleaner
  import opened Fetch
  import opened Store

  /** What an operation leaves: the files, and the history entry it appended
      when it got that far. */
  datatype Effect = Effect(fs: FileSystem, entry: Option<HistoryEntry>)

  /** The hosts file of a state, if there is one. */
  function Hosts(fs: FileSystem): Option<File> {
    if HostsPath in fs then Some(fs[HostsPath]) else None
  }

  /** The text an operation reads as the current hosts file, in text mode:
      empty when there is no file. */
  function CurrentText(fs: FileSystem): (r: string)
    ensures '\r' !in r
    ensures HostsPath !in fs ==> r == []
    ensures HostsPath in fs && '\r' !in fs[HostsPath].content ==> r == fs[HostsPath].content
  {
    if HostsPath in fs then
      var t := fs[HostsPath].content;
      if '\r' !in t then ReadTextFixed(t); ReadText(t) else ReadText(t)
    else ""
  }

  /** The original copy is kept once it exists. */
  predicate OriginalKept(fs: FileSystem, fs': FileSystem) {
    OriginalBackup() in fs ==> OriginalBackup() in fs' && fs'[OriginalBackup()] == fs[OriginalBackup()]
  }

  // ---------------------------------------------------------------------
  // Backups

  /** `backup_original_hosts`: the first copy is taken only when there is
      none yet and there is a hosts file; a failed copy is ignored. */
  function OriginalBackupFs(fs: FileSystem, copy: WriteOutcome, now: Timestamp): FileSystem {
    if OriginalBackup() !in fs && HostsPath in fs then CopyFile(fs, HostsPath, OriginalBackup(), copy, now)
    else fs
  }

  lemma OriginalBackupFacts(fs: FileSystem, copy: WriteOutcome, now: Timestamp)
    ensures var fs' := OriginalBackupFs(fs, copy, now);
      OriginalKept(fs, fs')
      && OnlyChanged(fs, fs', {OriginalBackup()})
      && (OriginalBackup() !in fs && HostsPath in fs && copy.Written? ==>
            OriginalBackup() in fs' && fs'[OriginalBackup()] == fs[HostsPath])
      && (HostsPath !in fs ==> fs' == fs)
  {
    if OriginalBackup() !in fs && HostsPath in fs {
      CopyFileFacts(fs, HostsPath, OriginalBackup(), copy, now);
    }
  }

  /** The copy of the hosts file taken under `name` before a change, when
      there is a hosts file. */
  function BackupCurrent(fs: FileSystem, name: string, copy: WriteOutcome, now: Timestamp): FileSystem {
    if HostsPath in fs then CopyFile(fs, HostsPath, BackupPath(name), copy, now) else fs
  }

  /** Whether taking the copy let the operation go on: it does when there is
      nothing to copy. */
  predicate BackupOk(fs: FileSystem, copy: WriteOutcome) {
    HostsPath !in fs || copy.Written?
  }

  lemma BackupCurrentFacts(fs: FileSystem, name: string, copy: WriteOutcome, now: Timestamp)
    ensures var fs' := BackupCurrent(fs, name, copy, now);
      OnlyChanged(fs, fs', {BackupPath(name)})
      && Hosts(fs') == Hosts(fs)
      && (HostsPath in fs && copy.Written? ==> BackupPath(name) in fs' && fs'[BackupPath(name)] == fs[HostsPath])
  {
    NamesApart("");
    if HostsPath in fs {
      CopyFileFacts(fs, HostsPath, BackupPath(name), copy, now);
    }
  }

  // ---------------------------------------------------------------------
  // Applying a downloaded hosts text

  /** What `confirm_update` decides and which warnings it shows. */
  datatype Confirmation = Confirmation(proceed: bool, warnedEmpty: bool, warnedIncomplete: bool)

  function ConfirmUpdate(hosts: string, answer: bool): Confirmation {
    if hosts == [] then Confirmation(false, true, false)
    else Confirmation(answer, false, !ValidHostsContent(hosts))
  }

  /** An empty text is refused; otherwise the user's answer alone decides,
      and an incomplete text only adds a warning. */
  lemma ConfirmUpdateFacts(hosts: string, answer: bool)
    ensures ConfirmUpdate(hosts, answer).proceed <==> hosts != [] && answer
    ensures ConfirmUpdate(hosts, answer).warnedIncomplete <==> hosts != [] && !ValidHostsContent(hosts)
    ensures ConfirmUpdate(hosts, answer).warnedEmpty <==> hosts == []
  {
  }

  /** Validation does not gate the update: two non-empty texts, one complete
      and one not, get the same decision. */
  lemma ValidationDoesNotGate(good: string, bad: string, answer: bool)
    requires ValidHostsContent(good) && bad != [] && !ValidHostsContent(bad)
    ensures ConfirmUpdate(good, answer).proceed == ConfirmUpdate(bad, answer).proceed == answer
  {
  }

  /** `update_hosts`: confirm, copy the hosts file, write the new text, record. */
  function HostsUpdate(fs: FileSystem, hosts: string, answer: bool, stamp: string,
                       copy: WriteOutcome, write: WriteOutcome, now: Timestamp): Effect
  {
    if !ConfirmUpdate(hosts, answer).proceed then Effect(fs, None)
    else
      var fs1 := BackupCurrent(fs, BackupPrefix + stamp, copy, now);
      if !BackupOk(fs, copy) then Effect(fs1, None)
      else
        Effect(WriteFile(fs1, HostsPath, hosts, write, now),
               if write.Written? then Some(Update(now, RecordCount(hosts))) else None)
  }

  /** Without a text or a yes nothing changes and nothing is recorded. The
      hosts file changes only after a confirmed update whose copy
      succeeded; the entry is appended exactly when the write completed, and
      then the file holds the text and the entry the count of records. Once
      the copy completed it holds the old file, whatever the write did after.
      Nothing but the hosts file and the one copy changes. */
  lemma HostsUpdateFacts(fs: FileSystem, hosts: string, answer: bool, stamp: string,
                         copy: WriteOutcome, write: WriteOutcome, now: Timestamp)
    ensures var e := HostsUpdate(fs, hosts, answer, stamp, copy, write, now);
      var go := hosts != [] && answer;
      (!go ==> e.fs == fs && e.entry.None?)
      && (!(go && BackupOk(fs, copy)) ==> Hosts(e.fs) == Hosts(fs))
      && (e.entry.Some? <==> go && BackupOk(fs, copy) && write.Written?)
      && (e.entry.Some? ==>
            (e.entry.value == Update(now, RecordCount(hosts))
             && HostsPath in e.fs && e.fs[HostsPath].content == hosts))
      && (go && HostsPath in fs && copy.Written? ==>
            BackupPath(BackupPrefix + stamp) in e.fs && e.fs[BackupPath(BackupPrefix + stamp)] == fs[HostsPath])
      && OnlyChanged(fs, e.fs, {HostsPath, BackupPath(BackupPrefix + stamp)})
      && OriginalKept(fs, e.fs)
  {
    ConfirmUpdateFacts(hosts, answer);
    var name := BackupPrefix + stamp;
    var fs1 := BackupCurrent(fs, name, copy, now);
    BackupCurrentFacts(fs, name, copy, now);
    WriteFileFacts(fs1, HostsPath, hosts, write, now);
    NamesApart(stamp);
  }

  // ---------------------------------------------------------------------
  // Applying the Steam block

  /** `update_steam_hosts`: refuse without a block, ask again for the sample
      payload, confirm, read the hosts file (`readable` says whether that
      read succeeds), copy it, merge, write, record. */
  function SteamHostsUpdate(fs: FileSystem, block: string, sampleAnswer: bool, answer: bool,
                            readable: bool, stamp: string, copy: WriteOutcome, write: WriteOutcome,
                            now: Timestamp): Effect
  {
    if block == [] || (Contains(block, SampleMarker) && !sampleAnswer) || !answer then Effect(fs, None)
    else if HostsPath in fs && !readable then Effect(fs, None)
    else
      var fs1 := BackupCurrent(fs, SteamBackupPrefix + stamp, copy, now);
      if !BackupOk(fs, copy) then Effect(fs1, None)
      else
        Effect(WriteFile(fs1, HostsPath, SteamApply(CurrentText(fs), block), write, now),
               if write.Written? then Some(SteamUpdate(now, RecordCount(block))) else None)
  }

  /** The Steam update writes only a confirmed, non-empty block (the sample
      payload after a second confirmation), only after reading the hosts file
      and only after its copy; without confirmation or when the read fails
      nothing changes. The entry is appended exactly when the merged text was
      written; once the copy completed it holds the old file. */
  lemma SteamHostsUpdateFacts(fs: FileSystem, block: string, sampleAnswer: bool, answer: bool,
                              readable: bool, stamp: string, copy: WriteOutcome, write: WriteOutcome,
                              now: Timestamp)
    ensures var e := SteamHostsUpdate(fs, block, sampleAnswer, answer, readable, stamp, copy, write, now);
      var go := block != [] && (Contains(block, SampleMarker) ==> sampleAnswer) && answer
        && (HostsPath in fs ==> readable);
      (!go ==> e.fs == fs && e.entry.None?)
      && (!(go && BackupOk(fs, copy)) ==> Hosts(e.fs) == Hosts(fs))
      && (e.entry.Some? <==> go && BackupOk(fs, copy) && write.Written?)
      && (e.entry.Some? ==>
            (e.entry.value == SteamUpdate(now, RecordCount(block))
             && HostsPath in e.fs && e.fs[HostsPath].content == SteamApply(CurrentText(fs), block)))
      && (go && HostsPath in fs && copy.Written? ==>
            BackupPath(SteamBackupPrefix + stamp) in e.fs
            && e.fs[BackupPath(SteamBackupPrefix + stamp)] == fs[HostsPath])
      && OnlyChanged(fs, e.fs, {HostsPath, BackupPath(SteamBackupPrefix + stamp)})
      && OriginalKept(fs, e.fs)
  {
    var name := SteamBackupPrefix + stamp;
    var fs1 := BackupCurrent(fs, name, copy, now);
    BackupCurrentFacts(fs, name, copy, now);
    WriteFileFacts(fs1, HostsPath, SteamApply(CurrentText(fs), block), write, now);
    NamesApart(stamp);
  }

  /** Two completed Steam updates in a row leave the hosts file holding what
      one update with the second block leaves, provided the first block, as
      the second update reads it back, is one the remover consumes: blocks do
      not pile up. */
  lemma SteamHostsUpdateTwice(fs: FileSystem, b1: string, b2: string, s1: bool, s2: bool,
                              stamp1: string, stamp2: string, now1: Timestamp, now2: Timestamp)
    requires Consumed(ReadText(b1))
    requires b2 != [] && (Contains(b2, SampleMarker) ==> s2)
    requires SteamHostsUpdate(fs, b1, s1, true, true, stamp1, Written, Written, now1).entry.Some?
    ensures var fs1 := SteamHostsUpdate(fs, b1, s1, true, true, stamp1, Written, Written, now1).fs;
      var twice := SteamHostsUpdate(fs1, b2, s2, true, true, stamp2, Written, Written, now2).fs;
      var once := SteamHostsUpdate(fs, b2, s2, true, true, stamp2, Written, Written, now2).fs;
      HostsPath in twice && HostsPath in once && twice[HostsPath].content == once[HostsPath].content
  {
    var fs1 := SteamHostsUpdate(fs, b1, s1, true, true, stamp1, Written, Written, now1).fs;
    SteamHostsUpdateFacts(fs, b1, s1, true, true, stamp1, Written, Written, now1);
    SteamHostsUpdateFacts(fs1, b2, s2, true, true, stamp2, Written, Written, now2);
    SteamHostsUpdateFacts(fs, b2, s2, true, true, stamp2, Written, Written, now2);
    ApplyReadBack(CurrentText(fs), b1);
    assert CurrentText(fs1) == SteamApply(CurrentText(fs), ReadText(b1));
    ApplyTwice(CurrentText(fs), ReadText(b1), b2);
  }

  /** Two completed Steam updates in a row, whatever the blocks, leave the
      second block merged into the text the first update left, as the second
      update reads it back. */
  lemma SteamHostsUpdateChained(fs: FileSystem, b1: string, b2: string, s1: bool, s2: bool,
                                stamp1: string, stamp2: string, now1: Timestamp, now2: Timestamp)
    requires b2 != [] && (Contains(b2, SampleMarker) ==> s2)
    requires SteamHostsUpdate(fs, b1, s1, true, true, stamp1, Written, Written, now1).entry.Some?
    ensures var fs1 := SteamHostsUpdate(fs, b1, s1, true, true, stamp1, Written, Written, now1).fs;
      var fs2 := SteamHostsUpdate(fs1, b2, s2, true, true, stamp2, Written, Written, now2).fs;
      HostsPath in fs2 && fs2[HostsPath].content == SteamApply(SteamApply(CurrentText(fs), ReadText(b1)), b2)
  {
    var fs1 := SteamHostsUpdate(fs, b1, s1, true, true, stamp1, Written, Written, now1).fs;
    SteamHostsUpdateFacts(fs, b1, s1, true, true, stamp1, Written, Written, now1);
    SteamHostsUpdateFacts(fs1, b2, s2, true, true, stamp2, Written, Written, now2);
    ApplyReadBack(CurrentText(fs), b1);
  }

  /** The text delivered by the first of the two Steam addresses that
      delivers any. */
  function SteamFetched(net: string -> nat -> Attempt, selection: string): Option<string> {
    match Delivered(net(PrimaryUrl(selection)), Retries)
    case Some(t) => Some(t)
    case None => Delivered(net(FallbackUrl(selection)), Retries)
  }

  /** The Steam text held after loading: the block built with the given header
      style from the first address that delivers text, else the sample
      payload. The program builds it `AsWritten`. */
  function SteamPayload(net: string -> nat -> Attempt, selection: string, ts: Timestamp,
                        style: Style): string {
    match SteamFetched(net, selection)
    case Some(t) => SteamBlock(t, ts, style)
    case None => SampleHosts()
  }

  /** After a load there is always a block, so the "no data" refusal cannot
      follow a load. The sample payload is consumed by the remover, and so is
      every corrected block; an as-written block is not when its extracted
      lines are clean or when nothing was extracted, and those lines or the
      placeholder's survive the next update. */
  lemma SteamPayloadFacts(net: string -> nat -> Attempt, selection: string, ts: Timestamp,
                          style: Style)
    ensures SteamPayload(net, selection, ts, style) != []
    ensures SteamFetched(net, selection).None? ==>
      SteamPayload(net, selection, ts, style) == SampleHosts()
      && Consumed(SteamPayload(net, selection, ts, style))
      && Consumed(ReadText(SteamPayload(net, selection, ts, style)))
    ensures style == Corrected ==> Consumed(SteamPayload(net, selection, ts, style))
    ensures style == Corrected && '\r' !in SteamPayload(net, selection, ts, style) ==>
      Consumed(ReadText(SteamPayload(net, selection, ts, style)))
    ensures SteamFetched(net, selection).Some? && style == AsWritten ==>
      var kept := SteamLines(Split(Region(SteamFetched(net, selection).value)));
      (kept != [] && AllClean(kept) ==> !Consumed(SteamPayload(net, selection, ts, style)))
      && (kept == [] ==> !Consumed(SteamPayload(net, selection, ts, style)))
  {
    var t := SteamFetched(net, selection);
    var p := SteamPayload(net, selection, ts, style);
    if '\r' !in p {
      ReadTextFixed(p);
    }
    if t.Some? {
      FetchedBlock(net, selection, ts, style);
    } else {
      FallbackSample(net, selection, ts, style);
    }
  }

  /** With fetched text the payload is its block: never empty, consumed when
      corrected, and keeping clean extracted lines, or the placeholder when
      nothing was extracted, when as written. */
  lemma FetchedBlock(net: string -> nat -> Attempt, selection: string, ts: Timestamp, style: Style)
    requires SteamFetched(net, selection).Some?
    ensures var t := SteamFetched(net, selection).value;
      var kept := SteamLines(Split(Region(t)));
      SteamPayload(net, selection, ts, style) == SteamBlock(t, ts, style)
      && SteamBlock(t, ts, style) != []
      && (style == Corrected ==> Consumed(SteamBlock(t, ts, style)))
      && (style == AsWritten && kept != [] && AllClean(kept) ==> !Consumed(SteamBlock(t, ts, style)))
      && (style == AsWritten && kept == [] ==> !Consumed(SteamBlock(t, ts, style)))
  {
    var t := SteamFetched(net, selection).value;
    BlockStartsWithHeader(t, ts, style);
    var kept := SteamLines(Split(Region(t)));
    if style == Corrected {
      CorrectedBlockConsumed(t, ts);
    } else if kept == [] {
      AsWrittenPlaceholderKept(t, ts);
    } else if AllClean(kept) {
      AsWrittenNotConsumed(t, ts);
    }
  }

  /** Without fetched text the payload is the sample, which the remover
      consumes. */
  lemma FallbackSample(net: string -> nat -> Attempt, selection: string, ts: Timestamp, style: Style)
    requires SteamFetched(net, selection).None?
    ensures SteamPayload(net, selection, ts, style) == SampleHosts()
    ensures SampleHosts() != [] && Consumed(SampleHosts())
    ensures ReadText(SampleHosts()) == SampleHosts()
  {
    SampleConsumed();
    SampleMarked();
    SampleReadBack();
  }

  // ---------------------------------------------------------------------
  // Restoring

  /** `restore_backup`: the backup must exist and be confirmed; the current
      file is copied first, then the backup's text is written over it. */
  function RestoreFromBackup(fs: FileSystem, path: string, answer: bool, readable: bool, stamp: string,
                             copy: WriteOutcome, write: WriteOutcome, now: Timestamp): Effect
  {
    if path !in fs || !answer || !readable then Effect(fs, None)
    else
      var content := ReadText(fs[path].content);
      var fs1 := BackupCurrent(fs, BeforeRestorePrefix + stamp, copy, now);
      if !BackupOk(fs, copy) then Effect(fs1, None)
      else
        Effect(WriteFile(fs1, HostsPath, content, write, now),
               if write.Written? then Some(Restore(now, Basename(path))) else None)
  }

  /** Without the backup, a confirmation or a readable backup nothing
      changes. A completed restore leaves the hosts file with the backup's
      text as it was before (even when the copy taken first has the same
      name) and records the backup's file name; once the copy of the current
      file completed it holds that file, whatever the write did after. */
  lemma RestoreFromBackupFacts(fs: FileSystem, path: string, answer: bool, readable: bool, stamp: string,
                               copy: WriteOutcome, write: WriteOutcome, now: Timestamp)
    ensures var e := RestoreFromBackup(fs, path, answer, readable, stamp, copy, write, now);
      var go := path in fs && answer && readable;
      (!go ==> e.fs == fs && e.entry.None?)
      && (!(go && BackupOk(fs, copy)) ==> Hosts(e.fs) == Hosts(fs))
      && (e.entry.Some? <==> go && BackupOk(fs, copy) && write.Written?)
      && (e.entry.Some? ==>
            (e.entry.value == Restore(now, Basename(path))
             && HostsPath in e.fs && e.fs[HostsPath].content == ReadText(fs[path].content)
             && ('\r' !in fs[path].content ==> e.fs[HostsPath].content == fs[path].content)))
      && (go && HostsPath in fs && copy.Written? ==>
            BackupPath(BeforeRestorePrefix + stamp) in e.fs
            && e.fs[BackupPath(BeforeRestorePrefix + stamp)] == fs[HostsPath])
      && OnlyChanged(fs, e.fs, {HostsPath, BackupPath(BeforeRestorePrefix + stamp)})
      && OriginalKept(fs, e.fs)
  {
    NamesApart(stamp);
    var e := RestoreFromBackup(fs, path, answer, readable, stamp, copy, write, now);
    if path in fs && answer && readable {
      var name := BeforeRestorePrefix + stamp;
      var fs1 := BackupCurrent(fs, name, copy, now);
      BackupCurrentFacts(fs, name, copy, now);
      if BackupOk(fs, copy) {
        var content := ReadText(fs[path].content);
        if '\r' !in fs[path].content {
          ReadTextFixed(fs[path].content);
        }
        assert e.fs == WriteFile(fs1, HostsPath, content, write, now);
        WriteFileFacts(fs1, HostsPath, content, write, now);
      } else {
        assert e == Effect(fs1, None);
      }
    } else {
      assert e == Effect(fs, None);
    }
  }

  /** Restoring from a listed backup records the name the list shows. */
  lemma RestoreRecordsListedName(fs: FileSystem, name: string, stamp: string, now: Timestamp)
    requires Listed(fs, name)
    requires BackupOk(fs, Written)
    ensures RestoreFromBackup(fs, BackupPath(name), true, true, stamp, Written, Written, now).entry
      == Some(Restore(now, name))
  {
    BasenameOfBackup(name);
  }

  /** `restore_original_backup`: the original copy must exist and the user
      confirm; the current file is copied first, then the original is copied
      over it. */
  function OriginalRestore(fs: FileSystem, answer: bool, stamp: string,
                           copy: WriteOutcome, restore: WriteOutcome, now: Timestamp): Effect
  {
    if OriginalBackup() !in fs || !answer then Effect(fs, None)
    else
      var fs1 := BackupCurrent(fs, BeforeRestorePrefix + stamp, copy, now);
      if !BackupOk(fs, copy) then Effect(fs1, None)
      else
        Effect(CopyFile(fs1, OriginalBackup(), HostsPath, restore, now),
               if restore.Written? then Some(History.RestoreOriginal(now)) else None)
  }

  /** Without the original copy or a yes nothing changes and nothing is
      recorded. A completed restore of the original leaves the hosts file equal to the
      original copy, text and time, and the original copy itself as it was.
      Once the copy of the current file completed it holds that file,
      whatever the copy of the original did after. */
  lemma RestoreOriginalFacts(fs: FileSystem, answer: bool, stamp: string,
                             copy: WriteOutcome, restore: WriteOutcome, now: Timestamp)
    ensures var e := OriginalRestore(fs, answer, stamp, copy, restore, now);
      var go := OriginalBackup() in fs && answer;
      (!go ==> e.fs == fs && e.entry.None?)
      && (!(go && BackupOk(fs, copy)) ==> Hosts(e.fs) == Hosts(fs))
      && (e.entry.Some? <==> go && BackupOk(fs, copy) && restore.Written?)
      && (e.entry.Some? ==>
            (e.entry.value == History.RestoreOriginal(now)
             && Hosts(e.fs) == Some(fs[OriginalBackup()])))
      && (go && HostsPath in fs && copy.Written? ==>
            BackupPath(BeforeRestorePrefix + stamp) in e.fs
            && e.fs[BackupPath(BeforeRestorePrefix + stamp)] == fs[HostsPath])
      && OnlyChanged(fs, e.fs, {HostsPath, BackupPath(BeforeRestorePrefix + stamp)})
      && OriginalKept(fs, e.fs)
  {
    var name := BeforeRestorePrefix + stamp;
    var fs1 := BackupCurrent(fs, name, copy, now);
    BackupCurrentFacts(fs, name, copy, now);
    NamesApart(stamp);
    if OriginalBackup() in fs {
      CopyFileFacts(fs1, OriginalBackup(), HostsPath, restore, now);
    }
  }

  // ---------------------------------------------------------------------
  // Deleting

  /** `delete_selected_backup`: the original copy is refused; otherwise the
      file goes once the user confirms and the removal succeeds. */
  function DeleteBackup(fs: FileSystem, name: string, answer: bool, removed: bool): FileSystem {
    if name == OriginalName || !answer || !removed then fs
    else fs - {BackupPath(name)}
  }

  lemma DeleteBackupFacts(fs: FileSystem, name: string, answer: bool, removed: bool)
    ensures var fs' := DeleteBackup(fs, name, answer, removed);
      OriginalKept(fs, fs')
      && OnlyChanged(fs, fs', {BackupPath(name)})
      && (BackupPath(name) !in fs' <==> BackupPath(name) !in fs || (name != OriginalName && answer && removed))
      && Hosts(fs') == Hosts(fs)
  {
    NamesApart("");
    BackupPathInjective(name, OriginalName);
  }
}
