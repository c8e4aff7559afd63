# GitHub520 hosts updater: a Dafny model of its synchronisation engine

`GitHub520App` (in `GithubFaster.py`) is a desktop tool that keeps the
system hosts file up to date so that GitHub and Steam resolve fast. It has
these parts:

- It downloads a ready-made hosts text from one of two sources, GitHub520
  or TinsFox. After a confirmation it backs up the current hosts file and
  overwrites it with the download.
- It downloads the SteamHostSync list, either straight from GitHub or
  through the `hub.gitmirror.com` mirror. From that list it extracts the
  lines naming Steam domains. It removes the Steam section an earlier run
  added to the hosts file and appends the fresh section.
- It keeps a backup directory. This holds one copy of the hosts file as it
  was at the first start (`hosts.original_backup`), plus one timestamped
  copy taken before every change. The backups can be listed newest first,
  restored or deleted.
- It keeps a ledger of updates and restores in a JSON configuration file.
  The file holds at most the last ten entries. The view shows the last five.

This project models that engine and proves what it guarantees. The parts
are:

| module | file | models |
|---|---|---|
| `Text` | `text.dfy` | The Python string operations the program relies on: `strip`, `split('\n')`, `'\n'.join`, `in`, `find`, `startswith` and string `<=`. |
| `History` | `history.dfy` | Ledger entries, the ten-entry save window, the five-entry view and its rebuild, and record counting. |
| `Fetch` | `fetch.dfy` | The retry loop, the two hosts sources, the Steam address choice and the completeness test. |
| `Extract` | `extract.dfy` | `extract_steam_hosts`, together with the sample payload. |
| `Cleaner` | `cleaner.dfy` | `remove_old_steam_hosts` and the merge rule of `update_steam_hosts`. |
| `Store` | `store.dfy` | The file system as a map from path to (content, modification time), non-atomic writes, copies, backup names and the backup listing. |
| `Flows` | `flows.dfy` | Each operation the user can trigger, as a pure function from file system and answers to a new file system and an optional ledger entry. |
| `App` | `engine.dfy` | The class `Engine`, whose fields and methods are those of `GitHub520App`. Each method is proved equal to its `Flows` function. A constant `style` fixes the header of the Steam block: the program is the engine built with `AsWritten`; `Corrected` is the fix described under Findings. |

Everything outside the program is a parameter:

- The network is a function from address and attempt number to the attempt's outcome.
- Every dialog answer is a boolean.
- Every write or copy has an outcome: `Written`, `Refused` (the open fails and nothing changes) or `Interrupted(n)` (the file was truncated and only `n` characters reached it).
- Every read that can fail on its own has an outcome `readable`: the hosts file read at the start of a Steam update and the backup's text read by a restore. A failed read aborts the operation before any copy or write.
- Timestamps are parameters too.

Writes are not atomic. The code opens the hosts file with `'w'`, so a
write that fails part way leaves a truncated file (`Store.WriteNotAtomic`).
The copy taken before each change is what makes such a file recoverable, so
the contracts state what that copy holds whatever the write does after it.

Reads follow Python's text mode. The Steam update and the restore read their
text with `open(..., 'r')`, which turns every `\r\n` and every lone `\r`
into `\n` (`Text.ReadText`); the writes with `'w'` put `\n` back as it is,
and the copies made with `shutil.copy2` are exact. So a restored backup, or
the part of the hosts file a Steam update keeps, holds the text as read,
not the stored text, whenever that text holds a carriage return.

## Model

| member | source | states |
|---|---|---|
| `Text.StrLeTotal` | GithubFaster.py:2048 | The string order used to sort backups by modification time is total, so any two backups can be compared. |
| `Text.StrLeTrans` | GithubFaster.py:2048 | That order is transitive, which a newest-first listing needs. |
| `Text.ReadText` | GithubFaster.py:986-987 | A text-mode read gives a text without carriage returns, never longer than the stored one. |
| `Text.ReadTextFixed` | GithubFaster.py:986-987 | A stored text without carriage returns is read exactly as stored. |
| `Text.ReadTextIdempotent` | GithubFaster.py:2139-2140 | Writing back what was read and reading again gives the same text. |
| `Text.ReadTextAppend` | GithubFaster.py:986-987 | Reading two pieces is reading each in turn when the first does not end in a carriage return. |
| `Text.ReadTextLineEndings` | GithubFaster.py:2139-2140 | `\r\n` and a lone `\r` each read as one newline. |
| `History.Saved` | GithubFaster.py:162-171 | The configuration file receives at most ten entries. It receives the whole ledger when the ledger has at most ten entries, and exactly ten otherwise. |
| `History.SavedIsSuffix` | GithubFaster.py:165 | What is saved is the newest part of the ledger, in order. |
| `History.SavedAfterAppend` | GithubFaster.py:165 | Once ten entries are saved, appending one and saving again drops the oldest saved entry and adds the new one at the end. |
| `History.RecordsMultiset` | GithubFaster.py:1677-1682 | Filtering the ledger keeps every well-formed entry as often as it occurs and drops every malformed one. |
| `History.RecordsOfClean` | GithubFaster.py:1677-1682 | The filtered list equals the input exactly when the input holds no malformed entry. |
| `History.SanitisedRecords` | GithubFaster.py:1670-1701 | The view rebuilds the ledger if and only if a malformed entry is among the last five. The rebuilt ledger holds no malformed entry and holds every well-formed entry as often as before. |
| `History.SanitisedChanged` | GithubFaster.py:1670-1701 | The view rebuilds the ledger exactly when the ledger is non-empty and it shows fewer records than there are entries among the last five. |
| `History.SanitisedIdempotent` | GithubFaster.py:1699-1701 | A second refresh of the view changes nothing more. |
| `History.SanitisedReorders` | GithubFaster.py:1699-1701 | The rebuild puts the shown entries before the older ones. With six entries whose newest is malformed, the oldest entry ends up last. |
| `History.CountLinesAppend` | GithubFaster.py:1430-1431 | The record count of two runs of lines is the sum of their counts. |
| `History.IndentedCommentCounts` | GithubFaster.py:1430-1431 | A comment line indented by a space counts as a record. A comment starting at column one does not. |
| `Fetch.FirstOpenedFromFacts` | GithubFaster.py:1349-1362 | Some attempt delivers a response exactly when one of the attempts opens, and that response is the body of the first attempt that opens. |
| `Fetch.FetchWithRetry` | GithubFaster.py:1349-1362 | A response is returned if and only if some attempt opens. It is that attempt's body, and every earlier attempt failed. The last failure is raised if and only if every attempt fails. Nothing is returned if and only if no attempt was asked for. The loop sleeps two seconds after each failed attempt except the last. |
| `Fetch.FallbackIsTheOther` | GithubFaster.py:797-852 | The fallback address always differs from the first address tried, so both the mirror and GitHub get tried. The mirror goes first exactly when the selection names GitMirror. |
| `Fetch.GitHubUserIsDefault` | GithubFaster.py:797-807 | Every selection that does not name GitMirror gets the same two addresses. |
| `Fetch.ValidHostsContentExamples` | GithubFaster.py:1342-1347 | The completeness test is plain substring search. A single comment naming both domains passes, and an empty text fails. |
| `Extract.BetweenBounds` | GithubFaster.py:890-898 | The region cut between two markers contains no end marker. When the first end marker begins after the first start marker ends, the region is exactly the text between them. Otherwise it is empty. |
| `Extract.RegionWithoutMarkers` | GithubFaster.py:890-898 | Without both markers, the whole text is searched. |
| `Extract.RegionBounds` | GithubFaster.py:890-898 | Applies `BetweenBounds` to the SteamHostSync markers. |
| `Extract.ExtractSteamHosts` | GithubFaster.py:887-946 | The extraction loop yields the header followed by the qualifying lines, or by the placeholder when no line qualifies. |
| `Extract.SteamLinesSound` | GithubFaster.py:900-928 | Every extracted line is stripped, non-empty and free of newlines. It does not start with `#`, and it names one of the allow-listed Steam domains. |
| `Extract.SteamLinesComplete` | GithubFaster.py:920-928 | Every line of the region that qualifies is extracted. |
| `Extract.SteamLinesAppend` | GithubFaster.py:920-928 | Extraction works line by line: the lines kept from two runs of input are those of the first followed by those of the second. With `Extract.SteamLinesOne`, each qualifying line is kept once and in place, duplicates included. |
| `Extract.SteamLinesOne` | GithubFaster.py:923-928 | A single line is kept, stripped, exactly when it qualifies. |
| `Extract.SteamLinesOrdered` | GithubFaster.py:920-928 | The extracted lines keep their order in the region. |
| `Extract.BlockLines` | GithubFaster.py:931-946 | The lines of the emitted block are the header's lines followed by the extracted lines, or by the placeholder's lines. |
| `Extract.BlockStartsWithHeader` | GithubFaster.py:931-946 | The emitted block is never empty and always starts with the header. |
| `Extract.MisplacedMarkersGivePlaceholder` | GithubFaster.py:890-898 | When the end marker comes before the start marker, the result is the header and the placeholder, whatever else the text holds. |
| `Extract.BlockRecordCount` | GithubFaster.py:931-946 | The record count stored for a Steam update is the number of extracted lines. The header and placeholder count for nothing. |
| `Extract.SampleRecordCount` | GithubFaster.py:874-885 | The sample payload counts as zero records: every line of it is a comment or blank. |
| `Extract.SampleMarked` | GithubFaster.py:956-963 | The sample payload carries the sample marker that triggers the second question. |
| `Extract.SampleReadBack` | GithubFaster.py:874-885 | The sample payload holds no carriage return, so it reads back unchanged. |
| `Cleaner.RemoveOldSteamHosts` | GithubFaster.py:1031-1065 | The removal loop computes the specification `Cleaned`, whose properties follow in the lemmas below. |
| `Cleaner.KeptLines` | GithubFaster.py:1044-1063 | Every kept line is a line of the input. It holds no Steam marker and is no non-comment entry naming a legacy Steam domain. |
| `Cleaner.KeptOrdered` | GithubFaster.py:1044-1063 | Kept lines stay in input order. |
| `Cleaner.SectionSkipped` | GithubFaster.py:1053-1056 | Inside a Steam section, lines are dropped up to and including the first blank line. After that the remover keeps lines again. |
| `Cleaner.CleanedUnchanged` | GithubFaster.py:1044-1063 | A text with no Steam marker and no legacy entry comes back unchanged. |
| `Cleaner.CleanedIsClean` | GithubFaster.py:1044-1063 | The result holds no Steam marker and no legacy entry. |
| `Cleaner.CleanedIdempotent` | GithubFaster.py:1031-1065 | Removing twice removes nothing more than removing once. |
| `Cleaner.StripKeepsClean` | GithubFaster.py:999 | Stripping a clean hosts text before the merge keeps it clean. |
| `Cleaner.ApplyLines` | GithubFaster.py:997-999 | The merged text's lines are the cleaned old lines, one blank line, then the block's lines. |
| `Cleaner.ApplyTwice` | GithubFaster.py:997-999 | Apply a block the remover consumes, then any second block. The result equals applying the second block alone, so Steam sections do not pile up. |
| `Cleaner.ApplyReadBack` | GithubFaster.py:986-1003 | Reading back a merged text written over a text without carriage returns gives the merge of the block as read. Only the block can change in the read. |
| `Cleaner.CleanedLacks` | GithubFaster.py:1044-1065 | The remover and the strip add no character other than the newline. |
| `Cleaner.CorrectedBlockConsumed` | GithubFaster.py:931-946 | With the header's blank line removed, the remover drops every block the extractor emits. |
| `Cleaner.SampleConsumed` | GithubFaster.py:874-885 | The remover drops the sample payload whole. |
| `Cleaner.AsWrittenBlockKept` | GithubFaster.py:931-933 | With the header as written, the remover keeps every extracted line of the block. |
| `Cleaner.AsWrittenNotConsumed` | GithubFaster.py:931-933 | An as-written block whose extracted lines are clean is not consumed by the remover. |
| `Cleaner.AsWrittenPlaceholderKept` | GithubFaster.py:931-946 | When nothing is extracted, the remover keeps the as-written placeholder of the block: a blank line, its three comments and a blank line. The block is therefore not consumed. |
| `Cleaner.AsWrittenLeavesStaleLines` | GithubFaster.py:931-933 | Apply an as-written block whose extracted lines are clean, then any block. The first block's lines stay in front of the second block. |
| `Cleaner.AsWrittenStaleWitness` | GithubFaster.py:931-933 | A concrete case: on an empty hosts file, the line `1.1.1.1 cloud-ops.steamstatic.com` survives the next update. |
| `Store.Prefix` | GithubFaster.py:1002-1003 | What an interrupted write leaves is a prefix of the intended text. |
| `Store.WriteFileFacts` | GithubFaster.py:1418-1419 | A write changes only its own path. A refused write changes nothing. Any other outcome leaves a prefix of the text stamped with the current time. A completed write leaves the whole text. |
| `Store.WriteNotAtomic` | GithubFaster.py:1418-1419 | An interrupted write leaves exactly the first `n` characters of the new text, a truncated file that is not the new text. |
| `Store.CopyFileFacts` | GithubFaster.py:86-87 | A copy changes only its destination. A completed copy reproduces the source file, including its modification time. |
| `Store.BasenameOfBackup` | GithubFaster.py:2158-2165 | The name recorded for a restore is the backup's file name. |
| `Store.BackupPathInjective` | GithubFaster.py:1385-1407 | Different backup names give different paths. |
| `Store.NamesApart` | GithubFaster.py:1385-1407 | No backup path is the hosts file. The backups taken before an update, a Steam update or a restore never overwrite the original copy. |
| `Store.BackupKindsApart` | GithubFaster.py:1385-1407 | The three kinds of timestamped backup never share a name. |
| `Store.InsertByMtimeMultiset` | GithubFaster.py:2048 | Insertion into the listing neither loses nor duplicates a name. |
| `Store.InsertByMtimeSorted` | GithubFaster.py:2048 | Insertion keeps a newest-first listing newest first. |
| `Store.SortByMtimeFacts` | GithubFaster.py:2048 | The sort is a permutation and orders names newest first. |
| `Store.ListBackups` | GithubFaster.py:2026-2055 | The listing holds every backup file whose name starts with `hosts.`, each exactly once, and nothing else, newest first. |
| `Flows.OriginalBackupFacts` | GithubFaster.py:76-90 | The original copy is taken only when none exists and a hosts file exists. A completed copy equals the hosts file. An existing original copy is never touched. |
| `Flows.BackupCurrentFacts` | GithubFaster.py:1385-1407 | A backup leaves the hosts file alone and changes only its own path. A completed backup holds the current hosts file. |
| `Flows.ConfirmUpdateFacts` | GithubFaster.py:1364-1383 | An update goes ahead exactly when a text is loaded and the user says yes. The empty warning and the incompleteness warning are shown exactly in their cases. |
| `Flows.ValidationDoesNotGate` | GithubFaster.py:1364-1383 | An incomplete text goes ahead on the same answer as a complete one. The completeness test only changes the wording of the question. |
| `Flows.HostsUpdateFacts` | GithubFaster.py:1448-1466 | Without a text or without a yes, nothing changes and nothing is recorded: no backup is taken. The hosts file changes only after a yes and a backup that did not fail. An entry is recorded if and only if the write completes, and the file then holds the download. Once the update is confirmed and the copy completes, the backup holds the old file, whether the write then completes, is refused or is interrupted. Only the hosts file and that backup change, and the original copy is kept. |
| `Flows.CurrentText` | GithubFaster.py:984-987 | The text a Steam update reads as the current hosts file holds no carriage return, and is the stored text when that holds none. There is no text when there is no file. |
| `Flows.SteamHostsUpdateFacts` | GithubFaster.py:948-1029 | Without a block, without the second yes for the sample payload, without the confirmation, or when reading the existing hosts file fails, nothing changes and nothing is recorded. Otherwise the hosts file changes only after a backup that did not fail. Once the copy completes, the backup holds the old file exactly, whatever the write does after. A completed update writes the old text as a text-mode read gives it (`Flows.CurrentText`), cleaned, then a blank line and the block, and records the block's record count. Only the hosts file and that backup change, and the original copy is kept. |
| `Flows.SteamHostsUpdateTwice` | GithubFaster.py:948-1029 | Two completed Steam updates in a row leave the hosts file holding what one update with the second block leaves. The condition is that the first block, as the second update reads it back, is one the remover consumes (`Consumed(ReadText(b1))`). The sample payload reads back unchanged and is consumed, and so does every corrected block without a carriage return. An as-written block is not consumed, when its extracted lines are clean (`Cleaner.AsWrittenNotConsumed`) or when it is the placeholder (`Cleaner.AsWrittenPlaceholderKept`). |
| `Flows.SteamHostsUpdateChained` | GithubFaster.py:986-1003 | For any two blocks, two completed Steam updates in a row leave the hosts file holding the second block merged into the text the first update left, as the second update reads it back. |
| `Flows.SteamPayloadFacts` | GithubFaster.py:790-885 | Whatever the network does, the Steam text held after a load is non-empty. When neither address delivers text it is the sample payload, which the remover consumes, also once it has been written and read back. A corrected block is always consumed, and also after a read back when it holds no carriage return. An as-written block is not consumed when its extracted lines are clean, nor when nothing was extracted. Those lines, or the placeholder's comments, survive the next update. |
| `Flows.FetchedBlock` | GithubFaster.py:790-872 | With delivered text, the held Steam text is the block the extractor builds from it, with the facts above for each header style. |
| `Flows.FallbackSample` | GithubFaster.py:862-872 | When neither address delivers text, the held Steam text is the sample payload. It is non-empty, consumed by the remover and read back unchanged. |
| `Flows.RestoreFromBackupFacts` | GithubFaster.py:2122-2165 | Without the backup, a yes, or a successful read of the backup's text, nothing changes. Otherwise the hosts file changes only after a backup of the current file that did not fail. Only a completed write is recorded, with the backup's name. The hosts file then holds the backup's text as a text-mode read gives it, which is the stored text whenever that holds no carriage return. Once the copy of the current file completes, the `before_restore` copy holds that file whatever the write does after. The original copy is kept. |
| `Flows.RestoreRecordsListedName` | GithubFaster.py:2158-2165 | Restoring a listed backup records the name shown in the list. |
| `Flows.RestoreOriginalFacts` | GithubFaster.py:1530-1565 | Without the original copy or without a yes, nothing changes and nothing is recorded: no `before_restore` copy is taken. A completed restore leaves the hosts file identical to the original copy, text and time, and leaves that copy untouched. Once the copy of the current file completes, the `before_restore` copy holds that file whatever the copy of the original does after. Only the hosts file and that copy change. |
| `Flows.DeleteBackupFacts` | GithubFaster.py:2097-2120 | The original copy can never be deleted. Any other backup disappears exactly when the user confirms and the removal succeeds. Nothing else changes. |
| `App.SavedThenLoaded` | GithubFaster.py:152-171 | Loading after a completed save yields the last ten entries of the ledger, in order. |
| `App.SaveThenDisplay` | GithubFaster.py:1433-1437 | Saving after an append and saving again from the view leaves the configuration one save of the rebuilt ledger would. |
| `App.Engine.constructor` | GithubFaster.py:38-90 | Start-up loads the ledger, takes the original copy if there is none, and refreshes the view once. The configuration is rewritten only if the view rebuilt the ledger. The header style is the one given. |
| `App.Engine.LoadConfig` | GithubFaster.py:152-160 | The ledger becomes the saved list. An unreadable file empties it. Only a missing file leaves it as it was. |
| `App.Engine.SaveConfig` | GithubFaster.py:162-171 | A completed save stores the last ten entries. A refused save leaves the file. An interrupted save leaves it unreadable. |
| `App.Engine.BackupOriginalHosts` | GithubFaster.py:76-90 | The file system becomes that of `Flows.OriginalBackupFs`, and an existing original copy is kept. |
| `App.Engine.LoadHostsData` | GithubFaster.py:1254-1280 | The loaded text is the response of the first attempt on the selected source that opens, when it decodes as UTF-8. Without one, or for an unknown source, the old text stays. |
| `App.Engine.ChangeSource` | GithubFaster.py:1248-1252 | The source changes, then its text is loaded. |
| `App.Engine.LoadSteamHosts` | GithubFaster.py:790-872 | The Steam text becomes the block built with the engine's header style from the first address that delivers text, else from the other address, else the sample payload. It is never empty. The sample payload is consumed by the remover, and so is every corrected block. |
| `App.Engine.CreateBackup` | GithubFaster.py:1385-1407 | Copies the hosts file to `hosts.backup_<stamp>` and reports success unless there was a hosts file and the copy failed. |
| `App.Engine.ApplyNewHosts` | GithubFaster.py:1409-1424 | Writes the text to the hosts file and reports success exactly when the write completes. |
| `App.Engine.UpdateHistoryDisplay` | GithubFaster.py:1670-1701 | Shows the well-formed entries among the last five. The ledger becomes the rebuilt ledger, and it is saved only when the rebuild changed it. |
| `App.Engine.RecordSuccess` | GithubFaster.py:1426-1446 | Appends an update entry with the loaded text's record count, saves, and refreshes the view. |
| `App.Engine.AppendAndShow` | GithubFaster.py:1433-1437 | Appending, saving and refreshing the view leave the rebuilt ledger and one save of it. |
| `App.Engine.UpdateHosts` | GithubFaster.py:1448-1466 | The new state is the state `Flows.HostsUpdate` gives. The ledger and configuration change only when the update is recorded, and the original copy is kept. |
| `App.Engine.UpdateSteamHosts` | GithubFaster.py:948-1029 | The new state is the state `Flows.SteamHostsUpdate` gives, reading the hosts file in text mode, including the case of an unreadable hosts file. A recorded update is appended without a view refresh, and the original copy is kept. |
| `App.Engine.RestoreBackup` | GithubFaster.py:2122-2169 | The new state is the state `Flows.RestoreFromBackup` gives, reading the backup in text mode, including the case of an unreadable backup. A recorded restore is appended, saved and shown. |
| `App.Engine.RestoreOriginalBackup` | GithubFaster.py:1530-1577 | The new state is the state `Flows.OriginalRestore` gives. A recorded restore is appended, saved and shown, and the original copy is kept. |
| `App.Engine.DeleteSelectedBackup` | GithubFaster.py:2097-2120 | Deletes a backup other than the original copy on a yes and a successful removal, and reports whether it did. |
| `App.Engine.RefreshBackupList` | GithubFaster.py:2026-2055 | Lists every backup exactly once, newest first. |
| `App.Engine.ClearHistory` | GithubFaster.py:1661-1668 | A non-empty ledger is emptied and saved on a yes. Otherwise nothing changes. |
| `App.SaveThenLoad` | GithubFaster.py:152-171 | Saving and loading again leaves the newest ten entries of the ledger. |
| `App.SteamTwice` | GithubFaster.py:790-1029 | Fetch and apply the Steam hosts twice, with every answer yes, every read succeeding and every write completing. The hosts file ends up holding the second block merged into the text the first update left, as the second update reads it back. That equals applying the second block once to the original text in two cases: the corrected header with a first block that holds no carriage return, and a first load that fell back to the sample payload. |

## Left out

- The Tk interface is not modelled: windows, buttons, labels, message boxes and the rendering of the history, status and backup views. The dialogs are boolean answers, and the view is the list of shown entries.
- Threads and `root.after` scheduling are not modelled. Each operation runs to completion as one step.
- Real network, clock and file-system access are parameters: the attempt outcomes, the timestamps, the write outcomes and the read outcomes.
- The Windows hosts path chosen by `os.name` is not modelled. The hosts file is `/etc/hosts`.
- The backup directory is modelled as the relative prefix `backup/`, not the absolute path the program builds.
- Opening the backup directory, viewing a backup file and the list-selection helpers (`view_selected_backup`, `restore_selected_backup`) are left out. They are UI around the operations modelled, and the last one only dispatches to `restore_backup`.
- The administrator-privilege check, DNS flushing, ping and other subprocess tools are left out, because they are calls to the operating system.
- The version check, the self-update download and `format_file_size` are outside the synchronisation engine.
- Logging is left out.
- `check_hosts_status` and `check_steam_hosts_status` are left out. They only set status labels.
- The JSON layout of the configuration file is left out. `App.ConfigFile` records only absent, unreadable, or the stored list of entries.
- The record count of a Steam update is stored by the program as the text `Steam <n>条`, and the restore entries carry a constant text. The model keeps the number `n` and drops the constant text.
- Decoding a response as UTF-8 is a given payload (text or not text), not a byte-level decoder.
- The restore dialog passes two arguments to the one-argument `restore_backup` (`GithubFaster.py:1525`). That call raises a `TypeError` in the program. `App.Engine.RestoreBackup` models the method as defined, not that call.
- `App.Engine.RestoreBackup`: its own contract does not restate that the original copy is kept. That fact is `Flows.RestoreFromBackupFacts`, which applies because the method's new file system is that function's result.
- `App.SteamTwice`: the one-section result for the corrected header needs a first block without carriage returns. An extracted line may hold an inner `\r`, which the second update reads as a line break, and the remover may then keep the part after it.
- `Flows.SteamHostsUpdateTwice`: holds only when the first block, as read back, is one the remover consumes. The program's own as-written blocks with clean extracted lines are not consumed (see Findings), so for them the lemma says nothing; `Flows.SteamHostsUpdateChained` gives the resulting text for every block.
- `Store.ListBackups`: the order among backups with equal modification times follows the directory listing, which is not modelled. The contract states only that the listing is newest first.
- `Store.Basename`: the contract states only that the result holds no `/`. `Store.BasenameOfBackup` gives the value for backup paths.
- `App.Engine.UpdateSteamHosts`, `App.Engine.UpdateHosts`, `App.Engine.RestoreBackup`, `App.Engine.RestoreOriginalBackup`: a single save outcome is used for every configuration save within one operation.

## Findings

| source | as written | input that shows it | evidently intended | confidence | as-written member | corrected member |
|---|---|---|---|---|---|---|
| GithubFaster.py:931-933 | The Steam header ends in a blank line. `remove_old_steam_hosts` ends a Steam section at the first blank line (`GithubFaster.py:1053-1056`), so it removes only the header and keeps the extracted entries that do not name `steamcommunity.com` or `store.steampowered.com`. Each later update adds another copy of them. | An empty hosts file and a fetched text holding the line `1.1.1.1 cloud-ops.steamstatic.com`, applied, then any second update. | A later update replaces the earlier Steam section completely. The corrected header has no blank line, so the remover drops the whole block. | not executed | `Cleaner.AsWrittenLeavesStaleLines`, `Cleaner.AsWrittenStaleWitness` | `Cleaner.CorrectedBlockConsumed`, `Cleaner.ApplyTwice` |

The engine takes the header style as a constant. Built with `AsWritten`
it is the program. `Flows.SteamPayloadFacts` and `Cleaner.AsWrittenNotConsumed`
show that its blocks with clean extracted lines are not consumed.
`Cleaner.AsWrittenPlaceholderKept` shows the same for the placeholder block
built when nothing is extracted: the remover keeps its three comment lines,
so each update adds another copy of them. `App.SteamTwice` then states only
that the second block is merged into the text the first update left. Built
with `Corrected`, `Flows.SteamHostsUpdateTwice` and `App.SteamTwice` prove
that repeated updates leave exactly one Steam section, for blocks without
carriage returns.
