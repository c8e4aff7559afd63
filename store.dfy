/** The files the program touches: the system hosts file and the backup
    directory next to the program. A file is its text and its modification
    time; a path names a file or nothing. */
module Store {
  import opened Text
  import opened History

  datatype File = File(content: string, mtime: Timestamp)
  type FileSystem = map<string, File>

  /** The hosts file outside Windows. */
  const HostsPath: string := "/etc/hosts"
  /** The backup directory, as a path prefix. */
  const BackupDir: string := "backup/"

  function BackupPath(name: string): string {
    BackupDir + name
  }

  /** The copy of the hosts file taken the first time the program starts. */
  const OriginalName: string := "hosts.original_backup"
  /** Names of the copies taken before an update, before a Steam update and
      before a restore; each is followed by a `%Y%m%d_%H%M%S` stamp. */
  const BackupPrefix: string := "hosts.backup_"
  const SteamBackupPrefix: string := "hosts.steam_backup_"
  const BeforeRestorePrefix: string := "hosts.before_restore_"

  function OriginalBackup(): string {
    BackupPath(OriginalName)
  }

  /** How writing one file ends. `open(path, 'w')` empties the file before a
      single byte is written, so a write that fails after opening leaves only
      the part written so far; only a refused open leaves the file alone. */
  datatype WriteOutcome = Written | Refused | Interrupted(kept: nat)

  function Prefix(text: string, n: nat): (r: string)
    ensures r <= text
  {
    if n < |text| then text[..n] else text
  }

  /** Writing `text` to `path` at time `now`. */
  function WriteFile(fs: FileSystem, path: string, text: string, outcome: WriteOutcome,
                     now: Timestamp): FileSystem
  {
    match outcome
    case Written => fs[path := File(text, now)]
    case Refused => fs
    case Interrupted(n) => fs[path := File(Prefix(text, n), now)]
  }

  /** `shutil.copy2(src, dst)`: the destination receives the text and the
      modification time of the source, or what an interrupted copy left. */
  function CopyFile(fs: FileSystem, src: string, dst: string, outcome: WriteOutcome,
                    now: Timestamp): FileSystem
    requires src in fs
  {
    match outcome
    case Written => fs[dst := fs[src]]
    case Refused => fs
    case Interrupted(n) => fs[dst := File(Prefix(fs[src].content, n), now)]
  }

  /** Two states agree on every path but `changed`. */
  ghost predicate OnlyChanged(fs: FileSystem, fs': FileSystem, changed: set<string>) {
    forall p :: p !in changed ==> (p in fs <==> p in fs') && (p in fs ==> fs[p] == fs'[p])
  }

  lemma OnlyChangedTrans(a: FileSystem, b: FileSystem, c: FileSystem, s: set<string>, t: set<string>)
    requires OnlyChanged(a, b, s) && OnlyChanged(b, c, t)
    ensures OnlyChanged(a, c, s + t)
  {
  }

  /** A write touches its own path only; a completed write leaves exactly the
      new text, any other leaves a prefix of it, and a refused one nothing. */
  lemma WriteFileFacts(fs: FileSystem, path: string, text: string, outcome: WriteOutcome,
                       now: Timestamp)
    ensures OnlyChanged(fs, WriteFile(fs, path, text, outcome, now), {path})
    ensures outcome.Refused? ==> WriteFile(fs, path, text, outcome, now) == fs
    ensures !outcome.Refused? ==>
      (path in WriteFile(fs, path, text, outcome, now)
       && WriteFile(fs, path, text, outcome, now)[path].content <= text
       && WriteFile(fs, path, text, outcome, now)[path].mtime == now)
    ensures outcome.Written? ==> WriteFile(fs, path, text, outcome, now)[path].content == text
  {
  }

  /** The write is not atomic: an interruption leaves a strictly shorter text,
      which is neither the old one (in general) nor the new one. */
  lemma WriteNotAtomic(fs: FileSystem, path: string, text: string, n: nat, now: Timestamp)
    requires n < |text|
    ensures var fs' := WriteFile(fs, path, text, Interrupted(n), now);
      path in fs' && fs'[path].content == text[..n] && fs'[path].content != text
  {
  }

  lemma CopyFileFacts(fs: FileSystem, src: string, dst: string, outcome: WriteOutcome,
                      now: Timestamp)
    requires src in fs
    ensures OnlyChanged(fs, CopyFile(fs, src, dst, outcome, now), {dst})
    ensures outcome.Refused? ==> CopyFile(fs, src, dst, outcome, now) == fs
    ensures !outcome.Refused? ==>
      (dst in CopyFile(fs, src, dst, outcome, now)
       && CopyFile(fs, src, dst, outcome, now)[dst].content <= fs[src].content)
    ensures outcome.Written? ==> CopyFile(fs, src, dst, outcome, now)[dst] == fs[src]
  {
  }

  // ---------------------------------------------------------------------
  // Names

  /** The text after the last `/` (`os.path.basename`). */
  function Basename(path: string): (r: string)
    ensures '/' !in r
    decreases |path|
  {
    if path == [] then []
    else if path[|path| - 1] == '/' then []
    else Basename(path[..|path| - 1]) + [path[|path| - 1]]
  }

  lemma {:induction false} BasenameOfName(dir: string, name: string)
    requires '/' !in name
    ensures Basename(dir + "/" + name) == name
    decreases |name|
  {
    if name == [] {
      assert (dir + "/" + name)[|dir + "/" + name| - 1] == '/';
    } else {
      var last := name[|name| - 1];
      var init := name[..|name| - 1];
      assert (dir + "/" + name)[..|dir + "/" + name| - 1] == dir + "/" + init;
      BasenameOfName(dir, init);
      assert name == init + [last];
    }
  }

  /** The name a backup file is listed and recorded under. */
  lemma BasenameOfBackup(name: string)
    requires '/' !in name
    ensures Basename(BackupPath(name)) == name
  {
    assert BackupPath(name) == "backup" + "/" + name;
    BasenameOfName("backup", name);
  }

  /** Different names give different paths, and a path in the directory
      gives back its name. */
  lemma BackupPathInjective(a: string, b: string)
    ensures BackupPath(a) == BackupPath(b) <==> a == b
  {
    if BackupPath(a) == BackupPath(b) {
      assert a == BackupPath(a)[|BackupDir|..];
      assert b == BackupPath(b)[|BackupDir|..];
    }
  }

  lemma BackupPathOf(p: string, name: string)
    ensures p == BackupPath(name) <==> StartsWith(p, BackupDir) && name == p[|BackupDir|..]
  {
    if p == BackupPath(name) {
      assert p[..|BackupDir|] == BackupDir;
    }
    if StartsWith(p, BackupDir) && name == p[|BackupDir|..] {
      assert p == p[..|BackupDir|] + p[|BackupDir|..];
    }
  }

  /** The hosts file is not in the backup directory, and no backup the
      program takes can replace the original copy, whatever the stamp. */
  lemma NamesApart(stamp: string)
    ensures forall name :: HostsPath != BackupPath(name)
    ensures BackupPath(BackupPrefix + stamp) != OriginalBackup()
    ensures BackupPath(SteamBackupPrefix + stamp) != OriginalBackup()
    ensures BackupPath(BeforeRestorePrefix + stamp) != OriginalBackup()
  {
    forall name ensures HostsPath != BackupPath(name) {
      assert HostsPath[0] != BackupPath(name)[0];
    }
    assert (BackupPrefix + stamp)[6] != OriginalName[6];
    assert (SteamBackupPrefix + stamp)[6] != OriginalName[6];
    assert (BeforeRestorePrefix + stamp)[6] != OriginalName[6];
    BackupPathInjective(BackupPrefix + stamp, OriginalName);
    BackupPathInjective(SteamBackupPrefix + stamp, OriginalName);
    BackupPathInjective(BeforeRestorePrefix + stamp, OriginalName);
  }

  /** The three kinds of backup never share a name, even with equal stamps. */
  lemma BackupKindsApart(s: string, t: string)
    ensures BackupPrefix + s != SteamBackupPrefix + t
    ensures BackupPrefix + s != BeforeRestorePrefix + t
    ensures SteamBackupPrefix + s != BeforeRestorePrefix + t
  {
    assert (BackupPrefix + s)[7] != (SteamBackupPrefix + t)[7];
    assert (BackupPrefix + s)[7] != (BeforeRestorePrefix + t)[7];
    assert (SteamBackupPrefix + s)[6] != (BeforeRestorePrefix + t)[6];
  }

  // ---------------------------------------------------------------------
  // The backup list

  /** A name the backup list shows: a file directly in the directory whose
      name starts with `hosts.`. */
  predicate Listed(fs: FileSystem, name: string) {
    BackupPath(name) in fs && StartsWith(name, "hosts.") && '/' !in name
  }

  /** The modification time shown for a name. */
  function Mtime(fs: FileSystem, name: string): Timestamp {
    if BackupPath(name) in fs then fs[BackupPath(name)].mtime else ""
  }

  predicate NewestFirst(fs: FileSystem, names: seq<string>) {
    forall i, j :: 0 <= i < j < |names| ==> StrLe(Mtime(fs, names[j]), Mtime(fs, names[i]))
  }

  /** Places `n` after every name at least as new, as a stable sort in
      reverse order does with a name met later. */
  function InsertByMtime(fs: FileSystem, names: seq<string>, n: string): seq<string>
    decreases |names|
  {
    if names == [] then [n]
    else if StrLe(Mtime(fs, n), Mtime(fs, names[0])) then [names[0]] + InsertByMtime(fs, names[1..], n)
    else [n] + names
  }

  /** `sort(key=mtime, reverse=True)`. */
  function SortByMtime(fs: FileSystem, names: seq<string>): seq<string>
    decreases |names|
  {
    if names == [] then []
    else InsertByMtime(fs, SortByMtime(fs, names[..|names| - 1]), names[|names| - 1])
  }

  lemma {:induction false} InsertByMtimeMultiset(fs: FileSystem, names: seq<string>, n: string)
    ensures multiset(InsertByMtime(fs, names, n)) == multiset(names) + multiset{n}
    decreases |names|
  {
    if names != [] && StrLe(Mtime(fs, n), Mtime(fs, names[0])) {
      InsertByMtimeMultiset(fs, names[1..], n);
      HeadTail(names);
    }
  }

  /** In a list sorted newest first, the head is at least as new as the rest. */
  lemma NewestFirstHead(fs: FileSystem, names: seq<string>)
    requires names != [] && NewestFirst(fs, names)
    ensures forall x :: x in names[1..] ==> StrLe(Mtime(fs, x), Mtime(fs, names[0]))
  {
    forall x | x in names[1..]
      ensures StrLe(Mtime(fs, x), Mtime(fs, names[0]))
    {
      var m :| 0 <= m < |names[1..]| && names[1..][m] == x;
      assert names[m + 1] == x;
    }
  }

  /** Everything `rest` holds is `n` or a name of `tail`, so no newer than `head`. */
  lemma BehindHead(fs: FileSystem, head: string, tail: seq<string>, n: string, rest: seq<string>)
    requires forall x :: x in tail ==> StrLe(Mtime(fs, x), Mtime(fs, head))
    requires StrLe(Mtime(fs, n), Mtime(fs, head))
    requires multiset(rest) == multiset(tail) + multiset{n}
    ensures forall k :: 0 <= k < |rest| ==> StrLe(Mtime(fs, rest[k]), Mtime(fs, head))
  {
    forall k | 0 <= k < |rest|
      ensures StrLe(Mtime(fs, rest[k]), Mtime(fs, head))
    {
      assert rest[k] in multiset(rest);
    }
  }

  /** Putting a head no older than every element in front of a sorted list. */
  lemma ConsNewestFirst(fs: FileSystem, head: string, rest: seq<string>)
    requires NewestFirst(fs, rest)
    requires forall k :: 0 <= k < |rest| ==> StrLe(Mtime(fs, rest[k]), Mtime(fs, head))
    ensures NewestFirst(fs, [head] + rest)
  {
    var r := [head] + rest;
    forall i, j | 0 <= i < j < |r|
      ensures StrLe(Mtime(fs, r[j]), Mtime(fs, r[i]))
    {
      assert r[j] == rest[j - 1];
      if i > 0 {
        assert r[i] == rest[i - 1];
      }
    }
  }

  lemma {:induction false} InsertByMtimeSorted(fs: FileSystem, names: seq<string>, n: string)
    requires NewestFirst(fs, names)
    ensures NewestFirst(fs, InsertByMtime(fs, names, n))
    decreases |names|
  {
    if names != [] {
      NewestFirstHead(fs, names);
      if StrLe(Mtime(fs, n), Mtime(fs, names[0])) {
        var rest := InsertByMtime(fs, names[1..], n);
        assert NewestFirst(fs, names[1..]) by {
          forall i, j | 0 <= i < j < |names[1..]|
            ensures StrLe(Mtime(fs, names[1..][j]), Mtime(fs, names[1..][i]))
          {
            assert names[1..][j] == names[j + 1] && names[1..][i] == names[i + 1];
          }
        }
        InsertByMtimeSorted(fs, names[1..], n);
        InsertByMtimeMultiset(fs, names[1..], n);
        BehindHead(fs, names[0], names[1..], n, rest);
        ConsNewestFirst(fs, names[0], rest);
      } else {
        StrLeTotal(Mtime(fs, n), Mtime(fs, names[0]));
        forall k | 0 <= k < |names|
          ensures StrLe(Mtime(fs, names[k]), Mtime(fs, n))
        {
          if k > 0 {
            assert names[k] in names[1..];
            StrLeTrans(Mtime(fs, names[k]), Mtime(fs, names[0]), Mtime(fs, n));
          }
        }
        ConsNewestFirst(fs, n, names);
      }
    }
  }

  /** The sort keeps every name exactly as often and puts the newest first. */
  lemma SortByMtimeFacts(fs: FileSystem, names: seq<string>)
    ensures multiset(SortByMtime(fs, names)) == multiset(names)
    ensures NewestFirst(fs, SortByMtime(fs, names))
  {
    SortByMtimeMultiset(fs, names);
    SortByMtimeSorted(fs, names);
  }

  lemma {:induction false} SortByMtimeMultiset(fs: FileSystem, names: seq<string>)
    ensures multiset(SortByMtime(fs, names)) == multiset(names)
    decreases |names|
  {
    if names != [] {
      var init, last := names[..|names| - 1], names[|names| - 1];
      var sorted := SortByMtime(fs, init);
      SortByMtimeStep(fs, names);
      SortByMtimeMultiset(fs, init);
      InsertByMtimeMultiset(fs, sorted, last);
      MultisetOfSnoc(names);
    }
  }

  /** The sort inserts the last name into the sorted others. */
  lemma SortByMtimeStep(fs: FileSystem, names: seq<string>)
    requires names != []
    ensures SortByMtime(fs, names)
      == InsertByMtime(fs, SortByMtime(fs, names[..|names| - 1]), names[|names| - 1])
  {
  }

  lemma {:induction false} SortByMtimeSorted(fs: FileSystem, names: seq<string>)
    ensures NewestFirst(fs, SortByMtime(fs, names))
    decreases |names|
  {
    if names != [] {
      var init, last := names[..|names| - 1], names[|names| - 1];
      SortByMtimeSorted(fs, init);
      InsertByMtimeSorted(fs, SortByMtime(fs, init), last);
    }
  }

  /** `refresh_backup_list`: the listed names, each once, newest first. */
  method ListBackups(fs: FileSystem) returns (names: seq<string>)
    ensures forall n :: multiset(names)[n] == if Listed(fs, n) then 1 else 0
    ensures forall n :: n in names <==> Listed(fs, n)
    ensures NewestFirst(fs, names)
  {
    var pending := fs.Keys;
    var found: seq<string> := [];
    while pending != {}
      invariant pending <= fs.Keys
      invariant forall n ::
        multiset(found)[n] == if Listed(fs, n) && BackupPath(n) !in pending then 1 else 0
      decreases |pending|
    {
      var p :| p in pending;
      pending := pending - {p};
      if StartsWith(p, BackupDir) {
        var n := p[|BackupDir|..];
        if StartsWith(n, "hosts.") && '/' !in n {
          BackupPathOf(p, n);
          forall m ensures multiset(found + [n])[m] ==
            if Listed(fs, m) && BackupPath(m) !in pending then 1 else 0
          {
            BackupPathInjective(m, n);
          }
          found := found + [n];
        } else {
          forall m ensures multiset(found)[m] ==
            if Listed(fs, m) && BackupPath(m) !in pending then 1 else 0
          {
            BackupPathOf(p, m);
          }
        }
      } else {
        forall m ensures multiset(found)[m] ==
          if Listed(fs, m) && BackupPath(m) !in pending then 1 else 0
        {
          BackupPathOf(p, m);
        }
      }
    }
    names := SortByMtime(fs, found);
    SortByMtimeFacts(fs, found);
  }
}
