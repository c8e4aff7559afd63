/** The program's state and its operations: the files, the configuration
    file holding the saved history, the history in memory, the chosen hosts
    source, the downloaded hosts text and the Steam block. Every answer the
    user gives and every outcome of a copy, a write or a download is a
    parameter. */
module App {
  import opened Text
  import opened History
  import opened Extract
  import opened Cleaner
  import opened Fetch
  import opened Store
  import opened Flows

  /** `github520_config.json`: missing, unreadable as JSON, or a stored
      history list. */
  datatype ConfigFile = Absent | Unreadable | Stored(entries: seq<HistoryEntry>)

  /** The history `load_config` leaves: unchanged without a file, empty when
      the file does not parse. */
  function LoadedHistory(config: ConfigFile, h: seq<HistoryEntry>): seq<HistoryEntry> {
    match config
    case Absent => h
    case Unreadable => []
    case Stored(entries) => entries
  }

  /** The configuration file after `save_config` wrote the last ten entries
      of `h`; a failure is ignored, but one after the file was opened leaves
      it unreadable. */
  function SavedConfig(config: ConfigFile, h: seq<HistoryEntry>, save: WriteOutcome): ConfigFile {
    match save
    case Written => Stored(Saved(h))
    case Refused => config
    case Interrupted(_) => Unreadable
  }

  /** Reading back what was saved gives the last ten entries in order. */
  lemma SavedThenLoaded(config: ConfigFile, h: seq<HistoryEntry>, h0: seq<HistoryEntry>)
    ensures LoadedHistory(SavedConfig(config, h, Written), h0) == Saved(h)
    ensures |LoadedHistory(SavedConfig(config, h, Written), h0)| <= MaxSaved
    ensures exists older :: h == older + LoadedHistory(SavedConfig(config, h, Written), h0)
  {
    TakeDrop(h, |h| - |Saved(h)|);
  }

  /** Saving, then letting the view rebuild and save again, leaves what one
      save of the rebuilt history leaves. */
  lemma SaveThenDisplay(c: ConfigFile, h: seq<HistoryEntry>, save: WriteOutcome)
    ensures (if Sanitised(h) != h then SavedConfig(SavedConfig(c, h, save), Sanitised(h), save)
             else SavedConfig(c, h, save)) == SavedConfig(c, Sanitised(h), save)
  {
  }

  /** The hosts text `load_hosts_data` leaves: the text delivered from the
      chosen source; an unknown source or a failed download keeps the old one. */
  function LoadedHosts(net: string -> nat -> Attempt, source: string, current: string): string {
    if source in HostsSources && Delivered(net(HostsSources[source]), Retries).Some?
    then Delivered(net(HostsSources[source]), Retries).value
    else current
  }

  class Engine {
    var fs: FileSystem
    var config: ConfigFile
    var history: seq<HistoryEntry>
    var currentSource: string
    var currentHosts: string
    var steamCurrent: string
    /** The header the Steam block is built with: the program's is
        `AsWritten`; `Corrected` is the intended one. */
    const style: Style

    /** Start-up: an empty history, then `load_config`, then
        `backup_original_hosts`, then the first refresh of the history view
        while the window is built. The first download is a separate call. */
    constructor (fs0: FileSystem, config0: ConfigFile, copy: WriteOutcome, now: Timestamp,
                 save: WriteOutcome, style0: Style)
      ensures style == style0
      ensures fs == OriginalBackupFs(fs0, copy, now)
      ensures history == Sanitised(LoadedHistory(config0, []))
      ensures config == if history != LoadedHistory(config0, []) then SavedConfig(config0, history, save) else config0
      ensures currentSource == GitHub520 && currentHosts == [] && steamCurrent == []
    {
      fs, config, history := fs0, config0, [];
      currentSource, currentHosts, steamCurrent := GitHub520, [], [];
      style := style0;
      new;
      LoadConfig();
      ghost var loaded := history;
      assert loaded == LoadedHistory(config0, []);
      BackupOriginalHosts(copy, now);
      assert config == config0 && history == loaded;
      Display(save);
    }

    /** The view refresh at the end of start-up, which leaves the files alone. */
    method Display(save: WriteOutcome)
      modifies this`history, this`config
      ensures history == Sanitised(old(history))
      ensures config == if history != old(history) then SavedConfig(old(config), history, save) else old(config)
    {
      var shown := UpdateHistoryDisplay(save);
    }

    method LoadConfig()
      modifies this`history
      ensures history == LoadedHistory(config, old(history))
    {
      match config {
        case Absent =>
        case Unreadable => history := [];
        case Stored(entries) => history := entries;
      }
    }

    method SaveConfig(save: WriteOutcome)
      modifies this`config
      ensures config == SavedConfig(old(config), history, save)
    {
      match save {
        case Written => config := Stored(Last(history, MaxSaved));
        case Refused =>
        case Interrupted(_) => config := Unreadable;
      }
    }

    method BackupOriginalHosts(copy: WriteOutcome, now: Timestamp)
      modifies this`fs
      ensures fs == OriginalBackupFs(old(fs), copy, now)
      ensures OriginalKept(old(fs), fs)
    {
      OriginalBackupFacts(fs, copy, now);
      if OriginalBackup() !in fs && HostsPath in fs {
        fs := CopyFile(fs, HostsPath, OriginalBackup(), copy, now);
      }
    }

    /** `load_hosts_data`, run to its end. */
    method LoadHostsData(net: string -> nat -> Attempt)
      modifies this`currentHosts
      ensures currentHosts == LoadedHosts(net, currentSource, old(currentHosts))
    {
      if currentSource in HostsSources {
        var r, attempts, slept := FetchWithRetry(net(HostsSources[currentSource]), Retries);
        var text := Received(r);
        if text.Some? {
          currentHosts := text.value;
        }
      }
    }

    /** Choosing another source reloads from it. */
    method ChangeSource(source: string, net: string -> nat -> Attempt)
      modifies this`currentSource, this`currentHosts
      ensures currentSource == source
      ensures currentHosts == LoadedHosts(net, source, old(currentHosts))
    {
      currentSource := source;
      LoadHostsData(net);
    }

    /** `load_steam_hosts_data`: the chosen address, then the other one, then
        the sample payload. */
    method LoadSteamHosts(selection: string, net: string -> nat -> Attempt, ts: Timestamp)
      modifies this`steamCurrent
      ensures steamCurrent == SteamPayload(net, selection, ts, style)
      ensures steamCurrent != []
      ensures SteamFetched(net, selection).None? ==> steamCurrent == SampleHosts() && Consumed(steamCurrent)
      ensures style == Corrected ==> Consumed(steamCurrent)
    {
      var r, attempts, slept := FetchWithRetry(net(PrimaryUrl(selection)), Retries);
      var text := Received(r);
      if text.Some? {
        steamCurrent := ExtractSteamHosts(text.value, ts, style);
        assert SteamFetched(net, selection) == text;
        FetchedBlock(net, selection, ts, style);
        return;
      }
      r, attempts, slept := FetchWithRetry(net(FallbackUrl(selection)), Retries);
      text := Received(r);
      if text.Some? {
        steamCurrent := ExtractSteamHosts(text.value, ts, style);
        assert SteamFetched(net, selection) == text;
        FetchedBlock(net, selection, ts, style);
      } else {
        steamCurrent := SampleHosts();
        FallbackSample(net, selection, ts, style);
      }
    }

    /** `create_backup`: it reports success also when there is no hosts file
        to copy. */
    method CreateBackup(stamp: string, copy: WriteOutcome, now: Timestamp) returns (ok: bool, path: string)
      modifies this`fs
      ensures fs == BackupCurrent(old(fs), BackupPrefix + stamp, copy, now)
      ensures ok == BackupOk(old(fs), copy)
      ensures path == BackupPath(BackupPrefix + stamp)
    {
      path := BackupPath(BackupPrefix + stamp);
      ok := true;
      if HostsPath in fs {
        fs := CopyFile(fs, HostsPath, path, copy, now);
        ok := copy.Written?;
      }
    }

    /** `apply_new_hosts`. */
    method ApplyNewHosts(text: string, write: WriteOutcome, now: Timestamp) returns (ok: bool)
      modifies this`fs
      ensures fs == WriteFile(old(fs), HostsPath, text, write, now)
      ensures ok == write.Written?
    {
      fs := WriteFile(fs, HostsPath, text, write, now);
      ok := write.Written?;
    }

    /** `update_history_display`: returns the records among the last five,
        and rebuilds and saves the history when one of those is malformed. */
    method UpdateHistoryDisplay(save: WriteOutcome) returns (shown: seq<HistoryEntry>)
      modifies this`history, this`config
      ensures shown == Shown(old(history))
      ensures history == Sanitised(old(history))
      ensures config == if history != old(history) then SavedConfig(old(config), history, save) else old(config)
    {
      shown := [];
      if history == [] {
        return;
      }
      var recent := Last(history, MaxShown);
      var i := 0;
      while i < |recent|
        invariant 0 <= i <= |recent|
        invariant shown == Records(recent[..i])
        invariant history == old(history) && config == old(config)
      {
        PrefixSnoc(recent, i);
        if IsRecord(recent[i]) {
          shown := shown + [recent[i]];
        }
        i := i + 1;
      }
      FullPrefix(recent);
      ghost var h0 := history;
      assert shown == Shown(h0);
      SanitisedChanged(h0);
      if |shown| != |recent| {
        assert Sanitised(h0) == shown + Records(AllButLast(h0, MaxShown));
        history := shown + Records(AllButLast(history, MaxShown));
        SaveConfig(save);
      } else {
        assert Sanitised(h0) == h0;
      }
    }

    /** `record_success`: append the entry, save, refresh the view. */
    method RecordSuccess(now: Timestamp, save: WriteOutcome)
      modifies this`history, this`config
      ensures history == Sanitised(old(history) + [Update(now, RecordCount(currentHosts))])
      ensures config == SavedConfig(old(config), history, save)
    {
      AppendAndShow(Update(now, RecordCount(currentHosts)), save);
    }

    /** The common end of a completed update or restore: append the entry,
        save, refresh the view. */
    method AppendAndShow(entry: HistoryEntry, save: WriteOutcome)
      modifies this`history, this`config
      ensures history == Sanitised(old(history) + [entry])
      ensures config == SavedConfig(old(config), history, save)
    {
      history := history + [entry];
      SaveThenDisplay(config, history, save);
      SaveConfig(save);
      var shown := UpdateHistoryDisplay(save);
    }

    /** `update_hosts`. */
    method UpdateHosts(answer: bool, stamp: string, copy: WriteOutcome, write: WriteOutcome,
                       now: Timestamp, save: WriteOutcome) returns (applied: bool)
      modifies this`fs, this`history, this`config
      ensures var e := HostsUpdate(old(fs), currentHosts, answer, stamp, copy, write, now);
        fs == e.fs && applied == e.entry.Some?
        && history == (if applied then Sanitised(old(history) + [e.entry.value]) else old(history))
        && config == (if applied then SavedConfig(old(config), history, save) else old(config))
      ensures OriginalKept(old(fs), fs)
    {
      HostsUpdateFacts(fs, currentHosts, answer, stamp, copy, write, now);
      applied := false;
      var c := ConfirmUpdate(currentHosts, answer);
      if c.proceed {
        var ok, path := CreateBackup(stamp, copy, now);
        if ok {
          var done := ApplyNewHosts(currentHosts, write, now);
          if done {
            RecordSuccess(now, save);
            applied := true;
          }
        }
      }
    }

    /** `update_steam_hosts`. It saves the history but does not refresh the
        view, so the history is not sanitised here. `readable` says whether
        reading the hosts file succeeds; a text-mode read, it turns every
        line ending into a newline. */
    method UpdateSteamHosts(sampleAnswer: bool, answer: bool, readable: bool, stamp: string,
                            copy: WriteOutcome, write: WriteOutcome, now: Timestamp, save: WriteOutcome)
      returns (applied: bool)
      modifies this`fs, this`history, this`config
      ensures var e := SteamHostsUpdate(old(fs), steamCurrent, sampleAnswer, answer, readable, stamp, copy, write, now);
        fs == e.fs && applied == e.entry.Some?
        && history == (if applied then old(history) + [e.entry.value] else old(history))
        && config == (if applied then SavedConfig(old(config), history, save) else old(config))
      ensures OriginalKept(old(fs), fs)
    {
      SteamHostsUpdateFacts(fs, steamCurrent, sampleAnswer, answer, readable, stamp, copy, write, now);
      ghost var e := SteamHostsUpdate(fs, steamCurrent, sampleAnswer, answer, readable, stamp, copy, write, now);
      assert OriginalKept(fs, e.fs);
      applied := false;
      if steamCurrent == [] {
        assert e == Effect(fs, None);
        return;
      }
      if Contains(steamCurrent, SampleMarker) && !sampleAnswer {
        assert e == Effect(fs, None);
        return;
      }
      if !answer {
        assert e == Effect(fs, None);
        return;
      }
      var current := "";
      if HostsPath in fs {
        if !readable {
          assert e == Effect(fs, None);
          return;
        }
        current := ReadText(fs[HostsPath].content);
      }
      assert current == CurrentText(fs);
      ghost var fs1 := BackupCurrent(fs, SteamBackupPrefix + stamp, copy, now);
      ghost var ok := BackupOk(fs, copy);
      if HostsPath in fs {
        fs := CopyFile(fs, HostsPath, BackupPath(SteamBackupPrefix + stamp), copy, now);
        if !copy.Written? {
          assert e == Effect(fs, None);
          return;
        }
      }
      assert fs == fs1 && ok;
      var cleaned := RemoveOldSteamHosts(current);
      var newContent := Strip(cleaned) + "\n\n" + steamCurrent;
      assert newContent == SteamApply(current, steamCurrent);
      fs := WriteFile(fs, HostsPath, newContent, write, now);
      if !write.Written? {
        assert e == Effect(fs, None);
        return;
      }
      assert e == Effect(fs, Some(SteamUpdate(now, RecordCount(steamCurrent))));
      history := history + [SteamUpdate(now, RecordCount(steamCurrent))];
      SaveConfig(save);
      applied := true;
    }

    /** `restore_backup`. `readable` says whether reading the backup's text
        succeeds; a text-mode read, it turns every line ending into a
        newline before the text is written back. */
    method RestoreBackup(path: string, answer: bool, readable: bool, stamp: string, copy: WriteOutcome,
                         write: WriteOutcome, now: Timestamp, save: WriteOutcome)
      returns (restored: bool)
      modifies this`fs, this`history, this`config
      ensures var e := RestoreFromBackup(old(fs), path, answer, readable, stamp, copy, write, now);
        fs == e.fs && restored == e.entry.Some?
        && history == (if restored then Sanitised(old(history) + [e.entry.value]) else old(history))
        && config == (if restored then SavedConfig(old(config), history, save) else old(config))
    {
      ghost var e := RestoreFromBackup(fs, path, answer, readable, stamp, copy, write, now);
      restored := false;
      if path !in fs || !answer {
        assert e == Effect(fs, None);
        return;
      }
      if !readable {
        assert e == Effect(fs, None);
        return;
      }
      var content := ReadText(fs[path].content);
      ghost var fs1 := BackupCurrent(fs, BeforeRestorePrefix + stamp, copy, now);
      ghost var ok := BackupOk(fs, copy);
      if HostsPath in fs {
        fs := CopyFile(fs, HostsPath, BackupPath(BeforeRestorePrefix + stamp), copy, now);
        if !copy.Written? {
          assert e == Effect(fs, None);
          return;
        }
      }
      assert fs == fs1 && ok;
      fs := WriteFile(fs, HostsPath, content, write, now);
      if !write.Written? {
        assert e == Effect(fs, None);
        return;
      }
      var entry := Restore(now, Basename(path));
      assert e == Effect(fs, Some(entry));
      AppendAndShow(entry, save);
      restored := true;
    }

    /** `restore_original_backup`. */
    method RestoreOriginalBackup(answer: bool, stamp: string, copy: WriteOutcome,
                                 restore: WriteOutcome, now: Timestamp, save: WriteOutcome)
      returns (restored: bool)
      modifies this`fs, this`history, this`config
      ensures var e := OriginalRestore(old(fs), answer, stamp, copy, restore, now);
        fs == e.fs && restored == e.entry.Some?
        && history == (if restored then Sanitised(old(history) + [e.entry.value]) else old(history))
        && config == (if restored then SavedConfig(old(config), history, save) else old(config))
      ensures OriginalKept(old(fs), fs)
    {
      RestoreOriginalFacts(fs, answer, stamp, copy, restore, now);
      ghost var e := OriginalRestore(fs, answer, stamp, copy, restore, now);
      assert OriginalKept(fs, e.fs);
      restored := false;
      if OriginalBackup() !in fs || !answer {
        assert e == Effect(fs, None);
        return;
      }
      ghost var fs1 := BackupCurrent(fs, BeforeRestorePrefix + stamp, copy, now);
      ghost var ok := BackupOk(fs, copy);
      if HostsPath in fs {
        fs := CopyFile(fs, HostsPath, BackupPath(BeforeRestorePrefix + stamp), copy, now);
        if !copy.Written? {
          assert e == Effect(fs, None);
          return;
        }
      }
      assert fs == fs1 && ok;
      fs := CopyFile(fs, OriginalBackup(), HostsPath, restore, now);
      if !restore.Written? {
        assert e == Effect(fs, None);
        return;
      }
      var entry := History.RestoreOriginal(now);
      assert e == Effect(fs, Some(entry));
      AppendAndShow(entry, save);
      restored := true;
    }

    /** `delete_selected_backup` for the selected name. */
    method DeleteSelectedBackup(name: string, answer: bool, removed: bool) returns (deleted: bool)
      modifies this`fs
      ensures fs == DeleteBackup(old(fs), name, answer, removed)
      ensures deleted <==> name != OriginalName && answer && removed
      ensures OriginalKept(old(fs), fs)
    {
      DeleteBackupFacts(fs, name, answer, removed);
      deleted := false;
      if name == OriginalName {
        return;
      }
      if answer && removed {
        fs := fs - {BackupPath(name)};
        deleted := true;
      }
    }

    /** `refresh_backup_list`. */
    method RefreshBackupList() returns (names: seq<string>)
      ensures forall n :: multiset(names)[n] == if Listed(fs, n) then 1 else 0
      ensures NewestFirst(fs, names)
    {
      names := ListBackups(fs);
    }

    /** `clear_history`: only a non-empty history, and only when confirmed. */
    method ClearHistory(answer: bool, save: WriteOutcome)
      modifies this`history, this`config
      ensures history == if old(history) != [] && answer then [] else old(history)
      ensures config == if old(history) != [] && answer then SavedConfig(old(config), [], save) else old(config)
    {
      if history != [] && answer {
        history := [];
        SaveConfig(save);
        var shown := UpdateHistoryDisplay(save);
      }
    }
  }

  /** Saving and then loading gives back the last ten entries. */
  method SaveThenLoad(e: Engine)
    modifies e`config, e`history
    ensures e.history == Saved(old(e.history))
  {
    e.SaveConfig(Written);
    e.LoadConfig();
  }

  /** Fetching and applying the Steam block twice, everything confirmed and
      every write completing, merges the second block into the text the
      first update left, as the second update reads it back. With the
      corrected header and a first block without carriage returns, or when
      the first load fell back to the sample payload, that is the text
      applying the second block once leaves: the first block is removed,
      not kept. */
  method SteamTwice(e: Engine, selection: string, net1: string -> nat -> Attempt,
                    net2: string -> nat -> Attempt, ts1: Timestamp, ts2: Timestamp,
                    stamp1: string, stamp2: string, now1: Timestamp, now2: Timestamp,
                    save: WriteOutcome)
    returns (applied1: bool, applied2: bool)
    modifies e`steamCurrent, e`fs, e`history, e`config
    ensures applied1 && applied2
    ensures HostsPath in e.fs
    ensures e.fs[HostsPath].content == SteamApply(SteamApply(CurrentText(old(e.fs)),
      ReadText(SteamPayload(net1, selection, ts1, e.style))), SteamPayload(net2, selection, ts2, e.style))
    ensures (e.style == Corrected && '\r' !in SteamPayload(net1, selection, ts1, e.style))
            || SteamFetched(net1, selection).None? ==>
      e.fs[HostsPath].content == SteamApply(CurrentText(old(e.fs)), SteamPayload(net2, selection, ts2, e.style))
  {
    ghost var fs0 := e.fs;
    e.LoadSteamHosts(selection, net1, ts1);
    ghost var b1 := e.steamCurrent;
    SteamHostsUpdateFacts(fs0, b1, true, true, true, stamp1, Written, Written, now1);
    applied1 := e.UpdateSteamHosts(true, true, true, stamp1, Written, Written, now1, save);
    e.LoadSteamHosts(selection, net2, ts2);
    ghost var b2 := e.steamCurrent;
    applied2 := e.UpdateSteamHosts(true, true, true, stamp2, Written, Written, now2, save);
    SteamHostsUpdateChained(fs0, b1, b2, true, true, stamp1, stamp2, now1, now2);
    SteamPayloadFacts(net1, selection, ts1, e.style);
    if Consumed(ReadText(b1)) {
      SteamHostsUpdateTwice(fs0, b1, b2, true, true, stamp1, stamp2, now1, now2);
      SteamHostsUpdateFacts(fs0, b2, true, true, true, stamp2, Written, Written, now2);
    }
  }
}
