/** The removal of a previously applied Steam block from a hosts text, and the
    rule that merges a new block into it. A line naming `Steam Hosts` or
    `SteamHostSync` opens a section that runs up to and including the next
    blank line; every line of a section is dropped, and so is any other
    non-comment line naming one of the two legacy Steam domains. */
module Cleaner {
  import opened Text
  import opened History
  import opened Extract

  /** A line that opens a Steam section (tested on the unstripped line). */
  predicate IsMarker(line: string) {
    Contains(line, "Steam Hosts") || Contains(line, "SteamHostSync")
  }

  /** A line that is empty once stripped; it closes a section. */
  predicate IsBlank(line: string) {
    Strip(line) == []
  }

  /** A hosts entry for one of the two legacy Steam domains: non-blank, not a
      comment once stripped, and naming either domain. */
  predicate IsLegacyEntry(line: string) {
    !IsBlank(line) && !StartsWith(Strip(line), "#")
    && (Contains(line, "steamcommunity.com") || Contains(line, "store.steampowered.com"))
  }

  /** A line the remover never drops on its own account. */
  predicate IsClean(line: string) {
    !IsMarker(line) && !IsLegacyEntry(line)
  }

  predicate AllClean(lines: seq<string>) {
    forall k :: 0 <= k < |lines| ==> IsClean(lines[k])
  }

  /** Is the remover inside a section after reading `line`? */
  function Step(inSection: bool, line: string): bool {
    if IsMarker(line) then true
    else if inSection then !IsBlank(line)
    else false
  }

  /** Does the remover keep `line`, given the section state before it? */
  predicate Keeps(inSection: bool, line: string) {
    !IsMarker(line) && !inSection && !IsLegacyEntry(line)
  }

  /** The section state after reading `lines`, starting in state `s0`. */
  function SectionAfter(s0: bool, lines: seq<string>): bool {
    if lines == [] then s0
    else Step(SectionAfter(s0, lines[..|lines| - 1]), lines[|lines| - 1])
  }

  /** The lines kept from `lines`, starting in state `s0`. */
  function KeptFrom(s0: bool, lines: seq<string>): seq<string> {
    if lines == [] then []
    else
      var init, last := lines[..|lines| - 1], lines[|lines| - 1];
      KeptFrom(s0, init) + (if Keeps(SectionAfter(s0, init), last) then [last] else [])
  }

  /** The lines `remove_old_steam_hosts` keeps: it starts outside a section. */
  function Kept(lines: seq<string>): seq<string> {
    KeptFrom(false, lines)
  }

  /** The text `remove_old_steam_hosts` returns. */
  function Cleaned(content: string): string {
    Join(Kept(Split(content)))
  }

  /** The loop of `remove_old_steam_hosts`. */
  method RemoveOldSteamHosts(content: string) returns (r: string)
    ensures r == Cleaned(content)
  {
    var lines := Split(content);
    var cleanedLines: seq<string> := [];
    var inSteamSection := false;
    var i := 0;
    while i < |lines|
      invariant 0 <= i <= |lines|
      invariant cleanedLines == Kept(lines[..i])
      invariant inSteamSection == SectionAfter(false, lines[..i])
    {
      PrefixSnoc(lines, i);
      var line := lines[i];
      var lineStripped := Strip(line);
      if Contains(line, "Steam Hosts") || Contains(line, "SteamHostSync") {
        inSteamSection := true;
      } else if inSteamSection {
        if lineStripped == [] {
          inSteamSection := false;
        }
      } else if lineStripped != [] && !StartsWith(lineStripped, "#")
        && (Contains(line, "steamcommunity.com") || Contains(line, "store.steampowered.com")) {
      } else {
        cleanedLines := cleanedLines + [line];
      }
      i := i + 1;
    }
    FullPrefix(lines);
    r := Join(cleanedLines);
  }

  /** The merge of `update_steam_hosts`: the cleaned text, stripped, then a
      blank line, then the new block. */
  function SteamApply(current: string, block: string): string {
    Strip(Cleaned(current)) + "\n\n" + block
  }

  // ---------------------------------------------------------------------
  // Properties of the remover

  /** Reading `a + b` is reading `a`, then reading `b` from where `a` left off. */
  lemma {:induction false} KeptFromAppend(s0: bool, a: seq<string>, b: seq<string>)
    ensures SectionAfter(s0, a + b) == SectionAfter(SectionAfter(s0, a), b)
    ensures KeptFrom(s0, a + b) == KeptFrom(s0, a) + KeptFrom(SectionAfter(s0, a), b)
    decreases |b|
  {
    if b == [] {
      AppendEmpty(a);
    } else {
      var b', x := b[..|b| - 1], b[|b| - 1];
      KeptFromAppend(s0, a, b');
      AppendInit(a, b);
      var m, st := SectionAfter(s0, a), SectionAfter(s0, a + b');
      var e := if Keeps(st, x) then [x] else [];
      assert KeptFrom(s0, a + b) == KeptFrom(s0, a + b') + e;
      assert KeptFrom(m, b) == KeptFrom(m, b') + e;
    }
  }

  /** Every kept line is a line of the input, and clean. */
  lemma {:induction false} KeptLines(s0: bool, lines: seq<string>)
    ensures forall x :: x in KeptFrom(s0, lines) ==> x in lines && IsClean(x)
    decreases |lines|
  {
    if lines != [] {
      KeptLines(s0, lines[..|lines| - 1]);
    }
  }

  /** The kept lines appear in the order of the input. */
  lemma {:induction false} KeptOrdered(s0: bool, lines: seq<string>)
    ensures IsSubseq(KeptFrom(s0, lines), lines)
    decreases |lines|
  {
    if lines != [] {
      var init, last := lines[..|lines| - 1], lines[|lines| - 1];
      KeptOrdered(s0, init);
      SubseqSnoc(KeptFrom(s0, init), init, last);
      InitLast(lines);
      if Keeps(SectionAfter(s0, init), last) {
        assert KeptFrom(s0, lines) == KeptFrom(s0, init) + [last];
      } else {
        assert KeptFrom(s0, lines) == KeptFrom(s0, init);
      }
    }
  }

  /** Outside a section, clean lines are all kept and no section opens. */
  lemma {:induction false} KeptAllClean(lines: seq<string>)
    requires AllClean(lines)
    ensures KeptFrom(false, lines) == lines
    ensures SectionAfter(false, lines) == false
    decreases |lines|
  {
    if lines != [] {
      var init := lines[..|lines| - 1];
      KeptAllClean(init);
      InitLast(lines);
    }
  }

  /** From inside a section, lines are dropped up to and including the first
      blank line, and the remover then carries on outside the section. */
  lemma {:induction false} SectionSkipped(run: seq<string>, blank: string, rest: seq<string>)
    requires forall k :: 0 <= k < |run| ==> !IsBlank(run[k])
    requires IsBlank(blank)
    ensures KeptFrom(true, run + [blank] + rest) == KeptFrom(false, rest)
    decreases |run|
  {
    KeptFromAppend(true, run + [blank], rest);
    KeptFromAppend(true, run, [blank]);
    SectionRun(run);
    BlankNotMarker(blank);
    TakeNone([blank]);
    assert SectionAfter(true, run + [blank]) == false;
    assert KeptFrom(true, run + [blank]) == [];
  }

  /** A blank line opens no section. */
  lemma BlankNotMarker(line: string)
    requires IsBlank(line)
    ensures !IsMarker(line)
  {
    StripEmptyAllSpace(line);
    assert !IsSpace('S');
    NotContainsChar(line, "Steam Hosts", 0);
    NotContainsChar(line, "SteamHostSync", 0);
  }

  /** A run of non-blank lines keeps the remover inside a section. */
  lemma {:induction false} SectionRun(run: seq<string>)
    requires forall k :: 0 <= k < |run| ==> !IsBlank(run[k])
    ensures SectionAfter(true, run) && KeptFrom(true, run) == []
    decreases |run|
  {
    if run != [] {
      SectionRun(run[..|run| - 1]);
    }
  }

  /** The blank line is clean. */
  lemma EmptyLineClean()
    ensures IsClean([]) && IsBlank([])
  {
    assert Strip([]) == [];
    assert !Contains([], "Steam Hosts") && !Contains([], "SteamHostSync");
  }

  /** A text whose lines are all clean is returned unchanged. */
  lemma CleanedUnchanged(content: string)
    requires AllClean(Split(content))
    ensures Cleaned(content) == content
  {
    KeptAllClean(Split(content));
    JoinSplit(content);
  }

  /** The cleaned text holds no section marker and no legacy entry. */
  lemma CleanedIsClean(content: string)
    ensures AllClean(Split(Cleaned(content)))
  {
    var kept := Kept(Split(content));
    KeptLines(false, Split(content));
    if kept == [] {
      EmptyLineClean();
      assert Split([]) == [[]];
    } else {
      forall k | 0 <= k < |kept|
        ensures '\n' !in kept[k]
      {
        assert kept[k] in Split(content);
      }
      SplitJoin(kept);
    }
  }

  /** Removing twice removes nothing more. */
  lemma CleanedIdempotent(content: string)
    ensures Cleaned(Cleaned(content)) == Cleaned(content)
  {
    CleanedIsClean(content);
    CleanedUnchanged(Cleaned(content));
  }

  // ---------------------------------------------------------------------
  // Stripping keeps a clean text clean

  lemma CleanLineDropFirst(c: char, line: string)
    requires IsSpace(c) && IsClean([c] + line)
    ensures IsClean(line)
  {
    var l := [c] + line;
    assert l[1..] == line;
    StripDropFirst(l);
    if Contains(line, "Steam Hosts") { ContainsInSuffix(l, 1, "Steam Hosts"); }
    if Contains(line, "SteamHostSync") { ContainsInSuffix(l, 1, "SteamHostSync"); }
    if Contains(line, "steamcommunity.com") { ContainsInSuffix(l, 1, "steamcommunity.com"); }
    if Contains(line, "store.steampowered.com") { ContainsInSuffix(l, 1, "store.steampowered.com"); }
  }

  lemma CleanLineDropLast(line: string, c: char)
    requires IsSpace(c) && IsClean(line + [c])
    ensures IsClean(line)
  {
    var l := line + [c];
    assert l[..|line|] == line;
    StripDropLast(l);
    if Contains(line, "Steam Hosts") { ContainsInPrefix(l, |line|, "Steam Hosts"); }
    if Contains(line, "SteamHostSync") { ContainsInPrefix(l, |line|, "SteamHostSync"); }
    if Contains(line, "steamcommunity.com") { ContainsInPrefix(l, |line|, "steamcommunity.com"); }
    if Contains(line, "store.steampowered.com") { ContainsInPrefix(l, |line|, "store.steampowered.com"); }
  }

  lemma CleanDropFirst(x: string)
    requires x != [] && IsSpace(x[0]) && AllClean(Split(x))
    ensures AllClean(Split(x[1..]))
  {
    var c, rest := x[0], x[1..];
    assert [c] + rest == x;
    if IsClean([c] + Split(rest)[0]) {
      CleanLineDropFirst(c, Split(rest)[0]);
    }
    LinesDropFirst(c, rest, IsClean);
  }

  lemma CleanDropLast(a: string, c: char)
    requires IsSpace(c) && AllClean(Split(a + [c]))
    ensures AllClean(Split(a))
  {
    var last := Split(a)[|Split(a)| - 1];
    if IsClean(last + [c]) {
      CleanLineDropLast(last, c);
    }
    LinesDropLast(a, c, IsClean);
  }

  lemma {:induction false} TrimStartKeepsClean(x: string)
    requires AllClean(Split(x))
    ensures AllClean(Split(TrimStart(x)))
    decreases |x|
  {
    if x != [] && IsSpace(x[0]) {
      CleanDropFirst(x);
      TrimStartKeepsClean(x[1..]);
    }
  }

  lemma {:induction false} TrimEndKeepsClean(x: string)
    requires AllClean(Split(x))
    ensures AllClean(Split(TrimEnd(x)))
    decreases |x|
  {
    if x != [] && IsSpace(x[|x| - 1]) {
      InitLast(x);
      CleanDropLast(x[..|x| - 1], x[|x| - 1]);
      TrimEndKeepsClean(x[..|x| - 1]);
    }
  }

  /** `strip()` keeps a clean text clean. */
  lemma StripKeepsClean(x: string)
    requires AllClean(Split(x))
    ensures AllClean(Split(Strip(x)))
  {
    TrimStartKeepsClean(x);
    TrimEndKeepsClean(TrimStart(x));
  }

  // ---------------------------------------------------------------------
  // Properties of the merge

  /** The lines of a merged text: the cleaned text's lines, one blank line,
      then the block's lines. */
  lemma ApplyLines(current: string, block: string)
    ensures Split(SteamApply(current, block))
      == Split(Strip(Cleaned(current))) + [[]] + Split(block)
  {
    SplitSeparated(Strip(Cleaned(current)), block);
  }

  /** The remover adds no character but the newline. */
  lemma CleanedLacks(content: string, c: char)
    requires c != '\n' && c !in content
    ensures c !in Strip(Cleaned(content))
  {
    var lines := Split(content);
    SplitLacks(content, c);
    KeptLines(false, lines);
    var kept := Kept(lines);
    forall k | 0 <= k < |kept|
      ensures c !in kept[k]
    {
      assert kept[k] in lines;
    }
    JoinLacks(kept, c);
    StripInside(Cleaned(content));
  }

  /** Reading back a merged text written over a text without carriage
      returns gives the merge of the block as read back. */
  lemma ApplyReadBack(current: string, block: string)
    requires '\r' !in current
    ensures ReadText(SteamApply(current, block)) == SteamApply(current, ReadText(block))
  {
    var prefix := Strip(Cleaned(current)) + "\n\n";
    CleanedLacks(current, '\r');
    assert '\r' !in prefix;
    ReadTextFixed(prefix);
    ReadTextAppend(prefix, block);
  }

  /** Two texts joined by an empty line split into the first text's lines,
      one empty line, and the second text's lines. */
  lemma SplitSeparated(s: string, block: string)
    ensures Split(s + "\n\n" + block) == Split(s) + [[]] + Split(block)
  {
    assert s + "\n\n" + block == s + "\n" + ("\n" + block);
    SplitAtNewline(s, "\n" + block);
    assert [] + "\n" + block == "\n" + block;
    SplitAtNewline([], block);
  }

  /** The remover drops every line of `block` when it reads it outside a
      section. */
  predicate Consumed(block: string) {
    KeptFrom(false, Split(block)) == []
  }

  /** What the remover leaves of a merged text: the earlier cleaned text,
      stripped, one blank line, and whatever it keeps of the block. */
  lemma CleanedApply(current: string, block: string)
    ensures Kept(Split(SteamApply(current, block)))
      == Split(Strip(Cleaned(current))) + [[]] + KeptFrom(false, Split(block))
  {
    var s := Strip(Cleaned(current));
    ApplyLines(current, block);
    CleanedIsClean(current);
    StripKeepsClean(Cleaned(current));
    KeptAllClean(Split(s));
    EmptyLineClean();
    KeptFromAppend(false, Split(s) + [[]], Split(block));
    KeptFromAppend(false, Split(s), [[]]);
    TakeNone<string>([[]]);
    assert KeptFrom(false, [[]]) == [[]];
  }

  /** Applying a block the remover consumes and then another block gives the
      text that applying the second block alone gives: updates do not
      accumulate. */
  lemma ApplyTwice(current: string, b1: string, b2: string)
    requires Consumed(b1)
    ensures SteamApply(SteamApply(current, b1), b2) == SteamApply(current, b2)
  {
    var s := Strip(Cleaned(current));
    var t := SteamApply(current, b1);
    CleanedApply(current, b1);
    var ks := Kept(Split(t));
    assert ks == Split(s) + [[]];
    JoinSnoc(Split(s), []);
    JoinSplit(s);
    assert Cleaned(t) == s + "\n";
    StripStripped(Cleaned(current));
    StripNewline(s);
    assert Strip(Cleaned(t)) == s;
  }

  /** The merged text ends with the block, and what precedes the block's
      separating blank line is clean. */
  lemma ApplyShape(current: string, block: string)
    ensures var s := Strip(Cleaned(current));
      SteamApply(current, block) == s + "\n\n" + block
      && AllClean(Split(s)) && IsStripped(s)
  {
    CleanedIsClean(current);
    StripKeepsClean(Cleaned(current));
    StripStripped(Cleaned(current));
  }

  // ---------------------------------------------------------------------
  // Which blocks the remover consumes

  /** A marker line is never blank. */
  lemma MarkerNotBlank(line: string)
    requires IsMarker(line)
    ensures !IsBlank(line)
  {
    if IsBlank(line) {
      BlankNotMarker(line);
    }
  }

  /** A line that starts with `#` is not blank. */
  lemma CommentNotBlank(line: string)
    requires line != [] && line[0] == '#'
    ensures !IsBlank(line)
  {
    StripNonEmpty(line);
  }

  /** A marker line is dropped and opens a section. */
  lemma MarkerThen(marker: string, rest: seq<string>)
    requires IsMarker(marker)
    ensures KeptFrom(false, [marker] + rest) == KeptFrom(true, rest)
  {
    KeptFromAppend(false, [marker], rest);
    TakeNone([marker]);
  }

  /** A marker, non-blank lines and a blank line are dropped whole, and the
      remover carries on outside the section. */
  lemma MarkerSection(marker: string, run: seq<string>, blank: string, rest: seq<string>)
    requires IsMarker(marker) && IsBlank(blank)
    requires forall k :: 0 <= k < |run| ==> !IsBlank(run[k])
    ensures KeptFrom(false, [marker] + run + [blank] + rest) == KeptFrom(false, rest)
  {
    AppendAssoc([marker] + run, [blank], rest);
    AppendAssoc([marker], run, [blank] + rest);
    AppendAssoc(run, [blank], rest);
    MarkerThen(marker, run + [blank] + rest);
    SectionSkipped(run, blank, rest);
  }

  lemma TitleIsMarker()
    ensures IsMarker(HeaderTitle)
  {
    ContainsMiddle("# ", "Steam Hosts", " 配置");
  }

  lemma HeaderRunNonBlank(ts: Timestamp)
    ensures var head := [HeaderSource, HeaderTimePrefix + ts];
      forall k :: 0 <= k < |head| ==> !IsBlank(head[k])
  {
    HeaderFacts(ts);
  }

  lemma HeaderFacts(ts: Timestamp)
    ensures IsMarker(HeaderTitle) && IsMarker(HeaderSource)
    ensures !IsBlank(HeaderSource) && !IsBlank(HeaderTimePrefix + ts)
  {
    ContainsMiddle("# ", "Steam Hosts", " 配置");
    var p := "# 来源: " + "https://github.com/" + "Clov614/";
    assert HeaderSource == p + "SteamHostSync" + [];
    ContainsMiddle(p, "SteamHostSync", []);
    MarkerNotBlank(HeaderSource);
    CommentNotBlank(HeaderTimePrefix + ts);
  }

  /** The corrected header and placeholder are dropped whole. */
  lemma CorrectedPlaceholderConsumed(ts: Timestamp)
    ensures KeptFrom(false, HeaderLines(Corrected, ts) + PlaceholderLines(Corrected)) == []
  {
    HeaderFacts(ts);
    CommentNotBlank(Placeholder1);
    CommentNotBlank(Placeholder2);
    CommentNotBlank(Placeholder3);
    EmptyLineClean();
    var run := [HeaderSource, HeaderTimePrefix + ts, Placeholder1, Placeholder2, Placeholder3];
    var head := [HeaderTitle, HeaderSource, HeaderTimePrefix + ts];
    var tail := [Placeholder1, Placeholder2, Placeholder3, []];
    AppendEmpty(head);
    AppendEmpty(tail);
    FirstFiveLast(HeaderTitle, HeaderSource, HeaderTimePrefix + ts, Placeholder1, Placeholder2, Placeholder3, []);
    MarkerSection(HeaderTitle, run, [], []);
  }

  /** Inside a section, two runs of non-blank lines are dropped whole. */
  lemma SectionRunAppend(a: seq<string>, b: seq<string>)
    requires forall k :: 0 <= k < |a| ==> !IsBlank(a[k])
    requires forall k :: 0 <= k < |b| ==> !IsBlank(b[k])
    ensures KeptFrom(true, a + b) == []
  {
    KeptFromAppend(true, a, b);
    SectionRun(a);
    SectionRun(b);
  }

  lemma CorrectedHeaderLines(ts: Timestamp)
    ensures HeaderLines(Corrected, ts) == [HeaderTitle] + [HeaderSource, HeaderTimePrefix + ts]
  {
  }

  /** The corrected header and non-blank kept lines are dropped whole. */
  lemma CorrectedLinesConsumed(ts: Timestamp, kept: seq<string>)
    requires forall k :: 0 <= k < |kept| ==> !IsBlank(kept[k])
    ensures KeptFrom(false, HeaderLines(Corrected, ts) + kept) == []
  {
    var head := [HeaderSource, HeaderTimePrefix + ts];
    CorrectedHeaderLines(ts);
    TitleIsMarker();
    HeaderRunNonBlank(ts);
    MarkerThenRuns(HeaderTitle, head, kept);
  }

  /** A marker followed by two runs of non-blank lines is dropped whole. */
  lemma MarkerThenRuns(marker: string, a: seq<string>, b: seq<string>)
    requires IsMarker(marker)
    requires forall k :: 0 <= k < |a| ==> !IsBlank(a[k])
    requires forall k :: 0 <= k < |b| ==> !IsBlank(b[k])
    ensures KeptFrom(false, [marker] + a + b) == []
  {
    AppendAssoc([marker], a, b);
    MarkerThen(marker, a + b);
    SectionRunAppend(a, b);
  }

  /** The remover consumes every block the corrected extractor produces. */
  lemma CorrectedBlockConsumed(content: string, ts: Timestamp)
    ensures Consumed(SteamBlock(content, ts, Corrected))
  {
    var kept := SteamLines(Split(Region(content)));
    BlockLines(content, ts, Corrected);
    if kept == [] {
      CorrectedPlaceholderConsumed(ts);
    } else {
      SteamLinesSound(Split(Region(content)));
      CorrectedLinesConsumed(ts, kept);
    }
  }

  /** The title line of the fallback payload is a section marker. */
  lemma SampleTitleMarker()
    ensures IsMarker(Sample1)
  {
    ContainsMiddle("# ", "Steam Hosts", " 配置 (示例数据)");
  }

  /** So is its closing hint. */
  lemma SampleHintMarker()
    ensures IsMarker(Sample5)
  {
    ContainsMiddle("# 请点击\"立即更新", "Steam Hosts", "\"按钮手动应用配置");
  }

  /** The remover consumes the fallback payload. */
  lemma SampleConsumed()
    ensures Consumed(SampleHosts())
  {
    SampleSplit();
    SampleTitleMarker();
    SampleHintMarker();
    CommentNotBlank(Sample2);
    CommentNotBlank(Sample3);
    CommentNotBlank(Sample6);
    TwoSectionsConsumed(Sample1, Sample2, Sample3, Sample5, Sample6);
  }

  /** Two sections, each a marker and non-blank lines closed by a blank line,
      are dropped whole. */
  lemma TwoSectionsConsumed(m1: string, a: string, b: string, m2: string, c: string)
    requires IsMarker(m1) && IsMarker(m2) && !IsBlank(a) && !IsBlank(b) && !IsBlank(c)
    ensures KeptFrom(false, [m1, a, b, [], m2, c, []]) == []
  {
    EmptyLineClean();
    var tail := [m2] + [c] + [[]] + [];
    MarkerSection(m1, [a, b], [], tail);
    MarkerSection(m2, [c], [], []);
    TwoClosedRuns(m1, a, b, [], m2, c);
  }

  // ---------------------------------------------------------------------
  // The block as written leaves its entries behind

  /** The as-written header's lines are dropped up to and including its
      blank line; the remover then keeps clean extracted lines. */
  lemma AsWrittenBlockKept(content: string, ts: Timestamp)
    requires var kept := SteamLines(Split(Region(content)));
      kept != [] && AllClean(kept)
    ensures KeptFrom(false, Split(SteamBlock(content, ts, AsWritten)))
      == SteamLines(Split(Region(content)))
  {
    var kept := SteamLines(Split(Region(content)));
    BlockLines(content, ts, AsWritten);
    var run := [HeaderSource, HeaderTimePrefix + ts];
    assert HeaderLines(AsWritten, ts) == [HeaderTitle] + run + [[]];
    assert Split(SteamBlock(content, ts, AsWritten)) == [HeaderTitle] + run + [[]] + kept;
    TitleIsMarker();
    HeaderRunNonBlank(ts);
    EmptyLineClean();
    MarkerSection(HeaderTitle, run, [], kept);
    KeptAllClean(kept);
  }

  /** An as-written block whose extracted lines are clean is not consumed:
      the remover keeps those lines. */
  lemma AsWrittenNotConsumed(content: string, ts: Timestamp)
    requires var kept := SteamLines(Split(Region(content)));
      kept != [] && AllClean(kept)
    ensures !Consumed(SteamBlock(content, ts, AsWritten))
  {
    AsWrittenBlockKept(content, ts);
  }

  /** A line lacking a `y` and a `w`, and a capital `S` or `H`, names neither
      marker nor legacy domain. */
  lemma CleanForLackingLetters(line: string)
    requires ('S' !in line || 'H' !in line) && 'y' !in line && 'w' !in line
    ensures IsClean(line)
  {
    if 'S' !in line {
      NotContainsChar(line, "Steam Hosts", 0);
      NotContainsChar(line, "SteamHostSync", 0);
    } else {
      NotContainsChar(line, "Steam Hosts", 6);
      NotContainsChar(line, "SteamHostSync", 5);
    }
    NotContainsChar(line, "steamcommunity.com", 13);
    NotContainsChar(line, "store.steampowered.com", 13);
  }

  /** The placeholder's lines name neither marker nor legacy domain. */
  lemma PlaceholderClean()
    ensures AllClean(PlaceholderLines(AsWritten))
  {
    EmptyLineClean();
    Placeholder1Letters();
    Placeholder2Letters();
    Placeholder3Letters();
    CleanForLackingLetters(Placeholder1);
    CleanForLackingLetters(Placeholder2);
    CleanForLackingLetters(Placeholder3);
  }

  lemma Placeholder1Letters()
    ensures 'H' !in Placeholder1 && 'y' !in Placeholder1 && 'w' !in Placeholder1
  {
  }

  lemma Placeholder2Letters()
    ensures 'S' !in Placeholder2 && 'y' !in Placeholder2 && 'w' !in Placeholder2
  {
  }

  lemma Placeholder3Letters()
    ensures 'S' !in Placeholder3 && 'y' !in Placeholder3 && 'w' !in Placeholder3
  {
  }

  /** An as-written block with nothing extracted is not consumed either: the
      header's blank line ends the section, and the remover keeps the
      placeholder, its three comments between two blank lines. */
  lemma AsWrittenPlaceholderKept(content: string, ts: Timestamp)
    requires SteamLines(Split(Region(content))) == []
    ensures KeptFrom(false, Split(SteamBlock(content, ts, AsWritten))) == PlaceholderLines(AsWritten)
    ensures !Consumed(SteamBlock(content, ts, AsWritten))
  {
    var body := PlaceholderLines(AsWritten);
    BlockLines(content, ts, AsWritten);
    var run := [HeaderSource, HeaderTimePrefix + ts];
    assert HeaderLines(AsWritten, ts) == [HeaderTitle] + run + [[]];
    assert Split(SteamBlock(content, ts, AsWritten)) == [HeaderTitle] + run + [[]] + body;
    TitleIsMarker();
    HeaderRunNonBlank(ts);
    EmptyLineClean();
    MarkerSection(HeaderTitle, run, [], body);
    PlaceholderClean();
    KeptAllClean(body);
  }

  /** A text of the form `s + "\n\n" + j`, with `s` stripped and `j` a
      stripped non-empty text, strips to itself, or to `j` when `s` is empty. */
  lemma StripSeparated(s: string, j: string)
    requires IsStripped(s) && IsStripped(j) && j != []
    ensures Strip(s + "\n\n" + j) == if s == [] then j else s + "\n\n" + j
  {
    var x := s + "\n\n" + j;
    if s == [] {
      assert x[1..] == "\n" + j && x[1..][1..] == j;
      StripDropFirst(x);
      StripDropFirst(x[1..]);
      StrippedFixed(j);
    } else {
      assert x[0] == s[0] && x[|x| - 1] == j[|j| - 1];
      StrippedFixed(x);
    }
  }

  /** Extracted lines are stripped and non-empty, so their join is too. */
  lemma KeptJoinStripped(kept: seq<string>)
    requires kept != []
    requires forall k :: 0 <= k < |kept| ==> kept[k] != [] && Strip(kept[k]) == kept[k]
    ensures IsStripped(Join(kept)) && Join(kept) != []
  {
    JoinEnds(kept);
    var first, last := kept[0], kept[|kept| - 1];
    StripStripped(first);
    StripStripped(last);
  }

  /** What the remover leaves after an as-written block was applied. */
  lemma CleanedAfterAsWritten(current: string, content: string, ts: Timestamp)
    requires var kept := SteamLines(Split(Region(content)));
      kept != [] && AllClean(kept)
    ensures Cleaned(SteamApply(current, SteamBlock(content, ts, AsWritten)))
      == Strip(Cleaned(current)) + "\n\n" + Join(SteamLines(Split(Region(content))))
  {
    var kept := SteamLines(Split(Region(content)));
    var b1 := SteamBlock(content, ts, AsWritten);
    var s := Strip(Cleaned(current));
    AsWrittenBlockKept(content, ts);
    CleanedApply(current, b1);
    var t := SteamApply(current, b1);
    assert Kept(Split(t)) == (Split(s) + [[]]) + kept;
    JoinAfterBlank(s, kept);
  }

  /** Joining the lines of `s`, a blank line and `kept` puts `s` and the
      joined `kept` on either side of an empty line. */
  lemma JoinAfterBlank(s: string, kept: seq<string>)
    requires kept != []
    ensures Join((Split(s) + [[]]) + kept) == s + "\n\n" + Join(kept)
  {
    JoinAppend(Split(s) + [[]], kept);
    JoinSnoc(Split(s), []);
    JoinSplit(s);
  }

  /** Applying an as-written block whose extracted lines are clean, then any
      block, leaves the first block's extracted lines in front of the second
      block: the result differs from applying the second block alone. */
  lemma AsWrittenLeavesStaleLines(current: string, content: string, ts: Timestamp, b2: string)
    requires var kept := SteamLines(Split(Region(content)));
      kept != [] && AllClean(kept)
    ensures var s, j := Strip(Cleaned(current)), Join(SteamLines(Split(Region(content))));
      SteamApply(SteamApply(current, SteamBlock(content, ts, AsWritten)), b2)
        == (if s == [] then j else s + "\n\n" + j) + "\n\n" + b2
    ensures SteamApply(SteamApply(current, SteamBlock(content, ts, AsWritten)), b2)
      != SteamApply(current, b2)
  {
    var kept := SteamLines(Split(Region(content)));
    var s, j := Strip(Cleaned(current)), Join(kept);
    CleanedAfterAsWritten(current, content, ts);
    StripStripped(Cleaned(current));
    SteamLinesSound(Split(Region(content)));
    KeptJoinStripped(kept);
    StripSeparated(s, j);
  }

  /** One fetched hosts line the extractor keeps. */
  const StaleEntry: string := "1.1.1.1 " + "cloud-ops." + "steamstatic.com"

  /** A character missing from each of three pieces is missing from their
      concatenation. */
  lemma NotInPieces(c: char, a: string, b: string, d: string)
    requires c !in a && c !in b && c !in d
    ensures c !in a + b + d
  {
  }

  /** The stale entry holds no newline and no capital S. */
  lemma StaleEntryNoNewlineNoS()
    ensures '\n' !in StaleEntry && 'S' !in StaleEntry
  {
    var a, b, d := "1.1.1.1 ", "cloud-ops.", "steamstatic.com";
    assert StaleEntry == a + b + d;
    NotInPieces('\n', a, b, d);
    NotInPieces('S', a, b, d);
  }

  /** The stale entry holds no `y` and no `w`. */
  lemma StaleEntryNoYNoW()
    ensures 'y' !in StaleEntry && 'w' !in StaleEntry
  {
    var a, b, d := "1.1.1.1 ", "cloud-ops.", "steamstatic.com";
    assert StaleEntry == a + b + d;
    NotInPieces('y', a, b, d);
    NotInPieces('w', a, b, d);
  }

  lemma StaleEntryQualifies()
    ensures Strip(StaleEntry) == StaleEntry && Qualifies(StaleEntry)
  {
    StaleEntryStripped();
    StrippedFixed(StaleEntry);
    StaleEntryNamesDomain();
  }

  lemma StaleEntryStripped()
    ensures IsStripped(StaleEntry)
  {
    var e := StaleEntry;
    assert e[0] == '1' && e[|e| - 1] == 'm';
  }

  lemma StaleEntryNamesDomain()
    ensures NamesSteamDomain(StaleEntry)
  {
    var d := SteamDomains[4];
    assert d == "cloud-ops." + "steamstatic.com";
    assert StaleEntry == "1.1.1.1 " + d + [];
    ContainsMiddle("1.1.1.1 ", d, []);
  }

  /** The stale entry is a hosts line the extractor keeps and the remover
      neither treats as a marker nor as a legacy entry. */
  lemma StaleEntryFacts()
    ensures SteamLines(Split(Region(StaleEntry))) == [StaleEntry]
    ensures IsClean(StaleEntry)
  {
    StaleEntryExtracted();
    StaleEntryClean();
  }

  /** The extractor keeps the stale entry as it stands. */
  lemma StaleEntryExtracted()
    ensures SteamLines(Split(Region(StaleEntry))) == [StaleEntry]
  {
    var e := StaleEntry;
    StaleEntryNoNewlineNoS();
    NotContainsChar(e, StartMarker, 7);
    assert Region(e) == e;
    SplitOneLine(e);
    StaleEntryQualifies();
    TakeNone([e]);
  }

  /** The remover does not recognise the stale entry. */
  lemma StaleEntryClean()
    ensures IsClean(StaleEntry)
  {
    var e := StaleEntry;
    StaleEntryNoNewlineNoS();
    StaleEntryNoYNoW();
    NotContainsChar(e, "Steam Hosts", 0);
    NotContainsChar(e, "SteamHostSync", 0);
    NotContainsChar(e, "steamcommunity.com", 13);
    NotContainsChar(e, "store.steampowered.com", 13);
  }

  /** On an empty hosts file, applying the as-written block for a fetched text
      holding `StaleEntry` and then any block leaves `StaleEntry` in front. */
  lemma AsWrittenStaleWitness(ts: Timestamp, b2: string)
    ensures SteamApply(SteamApply([], SteamBlock(StaleEntry, ts, AsWritten)), b2)
      == StaleEntry + "\n\n" + b2
    ensures SteamApply([], b2) == "\n\n" + b2
  {
    StaleEntryFacts();
    assert AllClean([StaleEntry]);
    EmptyLineClean();
    assert Split([]) == [[]];
    KeptAllClean([[]]);
    assert Cleaned([]) == [];
    assert Strip([]) == [];
    AsWrittenLeavesStaleLines([], StaleEntry, ts, b2);
  }
}
