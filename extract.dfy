/** The scoped extractor for the Steam service: the text between the
    `#steam Start` and `#steam End` markers (or the whole text) is scanned for
    non-comment lines naming an allow-listed Steam domain, and the kept lines
    are emitted under a header, or a placeholder when none is found. */
module Extract {
  import opened Text
  import opened History

  const StartMarker: string := "#steam Start"
  const EndMarker: string := "#steam End"

  /** The allow-list of Steam domains. */
  const SteamDomains: seq<string> := [
    "steamcommunity.com",
    "store.steampowered.com",
    "api.steampowered.com",
    "media.steampowered.com",
    "cloud-ops.steamstatic.com",
    "client-download.steamstatic.com",
    "cm.steampowered.com",
    "content.steampowered.com",
    "content1.steampowered.com",
    "content2.steampowered.com",
    "content3.steampowered.com",
    "content4.steampowered.com",
    "content5.steampowered.com",
    "content6.steampowered.com",
    "content7.steampowered.com",
    "content8.steampowered.com",
    "edge.steam-dns.top.comcast.net"
  ]

  /** The block as the program writes it, or with the blank line taken out of
      its header and placeholder (see the Findings section of the README). */
  datatype Style = AsWritten | Corrected

  // The texts are written as short pieces: the verifier reasons about a short
  // literal more readily than about a long one.
  const HeaderTitle: string := "# " + "Steam Hosts" + " 配置"
  const HeaderSource: string := "# 来源: " + "https://github.com/" + "Clov614/" + "SteamHostSync"
  const HeaderTimePrefix: string := "# 更新时间: "
  const Placeholder1: string := "# 示例Steam hosts" + "条目（当前未提取到实际内容）"
  const Placeholder2: string := "# 您可以手动从" + "GitHub仓库复制最新配置"
  const Placeholder3: string := "# 或尝试刷新获取最新数据"

  /** The header lines, followed (as written) by an empty line. */
  function HeaderLines(style: Style, ts: Timestamp): seq<string> {
    [HeaderTitle, HeaderSource, HeaderTimePrefix + ts]
      + (if style == AsWritten then [[]] else [])
  }

  /** The lines of the placeholder that replaces an empty body; as written it
      begins with an empty line. Both end with an empty line. */
  function PlaceholderLines(style: Style): seq<string> {
    (if style == AsWritten then [[]] else [])
      + [Placeholder1, Placeholder2, Placeholder3, []]
  }

  /** The header text: its lines, each ended by a newline. */
  function Header(style: Style, ts: Timestamp): string {
    Join(HeaderLines(style, ts)) + "\n"
  }

  /** The placeholder text. */
  function Placeholder(style: Style): string {
    Join(PlaceholderLines(style))
  }

  /** Both markers occur in the fetched text. */
  predicate HasMarkers(content: string) {
    Contains(content, StartMarker) && Contains(content, EndMarker)
  }

  /** The text after the first `open` and before the first `close` (Python's
      slice, empty when `close` comes first), or all of it when either is
      missing. */
  function Between(content: string, open: string, close: string): string {
    if Contains(content, open) && Contains(content, close) then
      var i := Find(content, open) + |open|;
      var j := Find(content, close);
      if i <= j then content[i..j] else []
    else content
  }

  /** The part of the fetched text that is scanned. */
  function Region(content: string): string {
    Between(content, StartMarker, EndMarker)
  }

  /** With both delimiters, the text between holds no `close` and is the
      text that starts right after the first `open` and ends where the first
      `close` begins; it is empty when `close` comes first. */
  lemma BetweenBounds(content: string, open: string, close: string)
    requires Contains(content, open) && Contains(content, close) && close != []
    ensures !Contains(Between(content, open, close), close)
    ensures var i, j := Find(content, open) + |open|, Find(content, close);
      OccursAt(content, open, i - |open|) && OccursAt(content, close, j)
      && (i <= j ==> Between(content, open, close) == content[i..j])
      && (j < i ==> Between(content, open, close) == [])
  {
    FindFound(content, open);
    FindFound(content, close);
    var i := Find(content, open) + |open|;
    var j := Find(content, close);
    if i <= j {
      NoneBeforeFind(content, close, i);
    }
  }


  /** Without both markers the whole text is scanned. */
  lemma RegionWithoutMarkers(content: string)
    requires !HasMarkers(content)
    ensures Region(content) == content
  {
  }

  /** With both markers, the scanned text holds no end marker and is the
      text right after the first start marker up to the first end marker;
      it is empty when the end marker comes first. */
  lemma RegionBounds(content: string)
    requires HasMarkers(content)
    ensures !Contains(Region(content), EndMarker)
    ensures var i, j := Find(content, StartMarker) + |StartMarker|, Find(content, EndMarker);
      OccursAt(content, StartMarker, i - |StartMarker|) && OccursAt(content, EndMarker, j)
      && (i <= j ==> Region(content) == content[i..j])
      && (j < i ==> Region(content) == [])
  {
    BetweenBounds(content, StartMarker, EndMarker);
  }


  /** A line the extractor keeps: once stripped it is non-empty, is not a
      comment, and names an allow-listed domain. */
  predicate Qualifies(line: string) {
    var l := Strip(line);
    l != [] && !StartsWith(l, "#") && NamesSteamDomain(l)
  }

  /** `any(domain in line for domain in steam_domains)`. */
  predicate NamesSteamDomain(line: string) {
    exists d :: d in SteamDomains && Contains(line, d)
  }

  /** The kept lines, stripped, in input order. */
  function SteamLines(lines: seq<string>): seq<string> {
    if lines == [] then []
    else
      var last := lines[|lines| - 1];
      SteamLines(lines[..|lines| - 1]) + (if Qualifies(last) then [Strip(last)] else [])
  }

  /** The text `extract_steam_hosts` returns (in the given style). */
  function SteamBlock(content: string, ts: Timestamp, style: Style): string {
    var kept := SteamLines(Split(Region(content)));
    Header(style, ts) + (if kept == [] then Placeholder(style) else Join(kept))
  }

  /** The loop of `extract_steam_hosts`, appending each qualifying line. */
  method ExtractSteamHosts(content: string, ts: Timestamp, style: Style) returns (r: string)
    ensures r == SteamBlock(content, ts, style)
  {
    var lines := Split(Region(content));
    var steamLines: seq<string> := [];
    var i := 0;
    while i < |lines|
      invariant 0 <= i <= |lines|
      invariant steamLines == SteamLines(lines[..i])
    {
      PrefixSnoc(lines, i);
      var line := Strip(lines[i]);
      if line != [] && !StartsWith(line, "#") {
        if NamesSteamDomain(line) {
          steamLines := steamLines + [line];
        }
      }
      i := i + 1;
    }
    FullPrefix(lines);
    r := Header(style, ts);
    if steamLines == [] {
      r := r + Placeholder(style);
    } else {
      r := r + Join(steamLines);
    }
  }

  // ---------------------------------------------------------------------
  // Properties of the kept lines

  /** Every kept line is stripped, non-empty, not a comment, free of newlines,
      and names an allow-listed domain. */
  lemma {:induction false} SteamLinesSound(lines: seq<string>)
    requires forall k :: 0 <= k < |lines| ==> '\n' !in lines[k]
    ensures forall k :: 0 <= k < |SteamLines(lines)| ==>
      var l := SteamLines(lines)[k];
      l != [] && Strip(l) == l && !StartsWith(l, "#") && '\n' !in l && NamesSteamDomain(l)
    decreases |lines|
  {
    if lines != [] {
      var last := lines[|lines| - 1];
      SteamLinesSound(lines[..|lines| - 1]);
      StripStripped(last);
      StrippedFixed(Strip(last));
      StripInside(last);
    }
  }

  /** `strip()` keeps a slice of its argument, so no newline appears. */
  lemma StripInside(s: string)
    ensures forall c :: c in Strip(s) ==> c in s
  {
    StripIsSlice(s);
  }

  /** Every qualifying input line is kept. */
  lemma {:induction false} SteamLinesComplete(lines: seq<string>, k: nat)
    requires k < |lines| && Qualifies(lines[k])
    ensures Strip(lines[k]) in SteamLines(lines)
    decreases |lines|
  {
    if k < |lines| - 1 {
      SteamLinesComplete(lines[..|lines| - 1], k);
    }
  }

  /** The extraction works line by line: the lines kept from two runs of
      input are those kept from the first followed by those kept from the
      second. With `SteamLinesOne`, each qualifying line is kept once, in
      place, duplicates included. */
  lemma {:induction false} SteamLinesAppend(a: seq<string>, b: seq<string>)
    ensures SteamLines(a + b) == SteamLines(a) + SteamLines(b)
    decreases |b|
  {
    if b == [] {
      assert a + b == a;
    } else {
      var init, last := b[..|b| - 1], b[|b| - 1];
      var tail := if Qualifies(last) then [Strip(last)] else [];
      assert (a + b)[..|a + b| - 1] == a + init;
      assert (a + b)[|a + b| - 1] == last;
      assert SteamLines(a + b) == SteamLines(a + init) + tail;
      assert SteamLines(b) == SteamLines(init) + tail;
      SteamLinesAppend(a, init);
      AppendAssoc(SteamLines(a), SteamLines(init), tail);
    }
  }

  /** One line is kept, stripped, exactly when it qualifies. */
  lemma SteamLinesOne(line: string)
    ensures SteamLines([line]) == if Qualifies(line) then [Strip(line)] else []
  {
    assert [line][..0] == [];
  }

  /** The stripped form of each input line. */
  function StripAll(lines: seq<string>): (r: seq<string>)
    ensures |r| == |lines|
    ensures forall k :: 0 <= k < |lines| ==> r[k] == Strip(lines[k])
  {
    if lines == [] then [] else StripAll(lines[..|lines| - 1]) + [Strip(lines[|lines| - 1])]
  }

  /** The kept lines appear in input order. */
  lemma {:induction false} SteamLinesOrdered(lines: seq<string>)
    ensures IsSubseq(SteamLines(lines), StripAll(lines))
    decreases |lines|
  {
    if lines != [] {
      var init := lines[..|lines| - 1];
      var last := lines[|lines| - 1];
      SteamLinesOrdered(init);
      assert StripAll(lines) == StripAll(init) + [Strip(last)];
      SubseqSnoc(SteamLines(init), StripAll(init), Strip(last));
      if Qualifies(last) {
        assert SteamLines(lines) == SteamLines(init) + [Strip(last)];
      } else {
        assert SteamLines(lines) == SteamLines(init);
      }
    }
  }

  // ---------------------------------------------------------------------
  // Properties of the emitted block

  /** The lines of the emitted block: the header lines, then the kept lines
      or, when nothing was kept, the placeholder lines. */
  lemma BlockLines(content: string, ts: Timestamp, style: Style)
    ensures var kept := SteamLines(Split(Region(content)));
      Split(SteamBlock(content, ts, style))
        == HeaderLines(style, ts) + (if kept == [] then PlaceholderLines(style) else kept)
  {
    var kept := SteamLines(Split(Region(content)));
    var head := HeaderLines(style, ts);
    var body := if kept == [] then PlaceholderLines(style) else kept;
    SteamLinesSound(Split(Region(content)));
    NoNewlineInTexts(style, ts);
    JoinAppend(head, body);
    assert Join(body) == if kept == [] then Placeholder(style) else Join(kept);
    assert SteamBlock(content, ts, style) == Join(head) + "\n" + Join(body);
    SplitJoin(head + body);
  }

  /** No header or placeholder line holds a newline. */
  lemma NoNewlineInTexts(style: Style, ts: Timestamp)
    ensures forall k :: 0 <= k < |HeaderLines(style, ts)| ==> '\n' !in HeaderLines(style, ts)[k]
    ensures forall k :: 0 <= k < |PlaceholderLines(style)| ==> '\n' !in PlaceholderLines(style)[k]
  {
    HeaderOneLine();
    PlaceholderOneLine();
    assert '\n' !in HeaderTimePrefix + ts;
  }

  lemma HeaderOneLine()
    ensures '\n' !in HeaderTitle && '\n' !in HeaderSource && '\n' !in HeaderTimePrefix
  {
  }

  lemma PlaceholderOneLine()
    ensures '\n' !in Placeholder1 && '\n' !in Placeholder2 && '\n' !in Placeholder3
  {
  }

  /** The block always begins with the header and is never empty; when no
      line qualified it is exactly the header followed by the placeholder. */
  lemma BlockStartsWithHeader(content: string, ts: Timestamp, style: Style)
    ensures StartsWith(SteamBlock(content, ts, style), Header(style, ts))
    ensures SteamBlock(content, ts, style) != []
    ensures SteamLines(Split(Region(content))) == [] ==>
      SteamBlock(content, ts, style) == Header(style, ts) + Placeholder(style)
  {
    var kept := SteamLines(Split(Region(content)));
    var b := SteamBlock(content, ts, style);
    assert b[..|Header(style, ts)|] == Header(style, ts);
  }

  /** When the end marker comes before the end of the start marker, nothing
      is scanned and the block is the placeholder. */
  lemma MisplacedMarkersGivePlaceholder(content: string, ts: Timestamp, style: Style)
    requires Contains(content, StartMarker) && Contains(content, EndMarker)
    requires Find(content, EndMarker) < Find(content, StartMarker) + |StartMarker|
    ensures SteamBlock(content, ts, style) == Header(style, ts) + Placeholder(style)
  {
    RegionBounds(content);
    assert Split([]) == [[]];
    assert !Qualifies([]) by { assert Strip([]) == []; }
    var none: seq<string> := [[]];
    assert none[..0] == [];
    assert SteamLines(none) == [];
  }

  /** The number of records stored for a Steam update is the number of
      extracted lines: header and placeholder lines are all comments. */
  lemma BlockRecordCount(content: string, ts: Timestamp, style: Style)
    ensures RecordCount(SteamBlock(content, ts, style)) == |SteamLines(Split(Region(content)))|
  {
    var kept := SteamLines(Split(Region(content)));
    var head := HeaderLines(style, ts);
    var body := if kept == [] then PlaceholderLines(style) else kept;
    BlockLines(content, ts, style);
    CountLinesAppend(head, body);
    HeaderNotCounted(style, ts);
    if kept == [] {
      PlaceholderNotCounted(style);
    } else {
      KeptAllCounted(Split(Region(content)));
    }
  }

  /** No header line counts as a record. */
  lemma HeaderNotCounted(style: Style, ts: Timestamp)
    ensures CountLines(HeaderLines(style, ts)) == 0
  {
    assert StartsWith(HeaderTitle, "#") && StartsWith(HeaderSource, "#");
    assert StartsWith(HeaderTimePrefix + ts, "#");
    assert !IsCountedLine([]) by { assert Strip([]) == []; }
    CountLinesAll(HeaderLines(style, ts));
  }

  /** No placeholder line counts as a record. */
  lemma PlaceholderNotCounted(style: Style)
    ensures CountLines(PlaceholderLines(style)) == 0
  {
    assert StartsWith(Placeholder1, "#") && StartsWith(Placeholder2, "#") && StartsWith(Placeholder3, "#");
    assert !IsCountedLine([]) by { assert Strip([]) == []; }
    CountLinesAll(PlaceholderLines(style));
  }

  /** Every extracted line counts as a record. */
  lemma KeptAllCounted(lines: seq<string>)
    requires forall k :: 0 <= k < |lines| ==> '\n' !in lines[k]
    ensures CountLines(SteamLines(lines)) == |SteamLines(lines)|
  {
    SteamLinesSound(lines);
    CountLinesAll(SteamLines(lines));
  }

  // ---------------------------------------------------------------------
  // The fallback payload

  /** The words that mark the fallback payload. */
  const SampleMarker: string := "示例数据"

  const Sample1: string := "# " + "Steam Hosts" + " 配置 (示例数据)"
  const Sample2: string := "# 来源: 本地示例 " + "(因网络问题无法获取在线配置)"
  const Sample3: string := "# 建议手动从 " + "https://github.com/" + "Clov614/" + "SteamHostSync" + " 获取最新配置"
  const Sample5: string := "# 请点击\"立即更新" + "Steam Hosts" + "\"按钮手动应用配置"
  const Sample6: string := "# 或访问上述链接" + "手动复制hosts内容到此文本框"

  /** The lines of the payload used when neither address answers. */
  function SampleLines(): seq<string> {
    [Sample1, Sample2, Sample3, [], Sample5, Sample6, []]
  }

  /** The payload used when neither address answers. */
  function SampleHosts(): string {
    Join(SampleLines())
  }

  /** The first three lines of the payload hold no newline. */
  lemma SampleHeadOneLine()
    ensures '\n' !in Sample1 && '\n' !in Sample2 && '\n' !in Sample3
  {
    SampleTitleOneLine();
  }

  lemma SampleTitleOneLine()
    ensures '\n' !in Sample1
  {
  }

  /** Nor do its last two non-blank lines. */
  lemma SampleTailOneLine()
    ensures '\n' !in Sample5 && '\n' !in Sample6
  {
  }

  /** The payload holds no carriage return, so a text-mode read gives it back
      unchanged. */
  lemma SampleReadBack()
    ensures ReadText(SampleHosts()) == SampleHosts()
  {
    SampleHeadNoReturn();
    SampleTailNoReturn();
    var lines := SampleLines();
    forall k | 0 <= k < |lines|
      ensures '\r' !in lines[k]
    {
    }
    JoinLacks(lines, '\r');
    ReadTextFixed(SampleHosts());
  }

  lemma SampleHeadNoReturn()
    ensures '\r' !in Sample1 && '\r' !in Sample2 && '\r' !in Sample3
  {
    SampleTitleNoReturn();
  }

  lemma SampleTitleNoReturn()
    ensures '\r' !in Sample1
  {
  }

  lemma SampleTailNoReturn()
    ensures '\r' !in Sample5 && '\r' !in Sample6
  {
  }

  /** No line of the payload holds a newline. */
  lemma SampleSplit()
    ensures Split(SampleHosts()) == SampleLines()
  {
    SampleHeadOneLine();
    SampleTailOneLine();
    SplitJoin(SampleLines());
  }

  /** Every line of the payload is a comment or blank: it holds no hosts
      record. */
  lemma SampleRecordCount()
    ensures RecordCount(SampleHosts()) == 0
  {
    SampleSplit();
    SampleComments();
    CommentsNotCounted(SampleLines());
  }

  /** Each line of the payload is empty or a comment. */
  lemma SampleComments()
    ensures forall k :: 0 <= k < |SampleLines()| ==> SampleLines()[k] == [] || SampleLines()[k][0] == '#'
  {
    assert Sample1[0] == '#' && Sample2[0] == '#' && Sample3[0] == '#';
    assert Sample5[0] == '#' && Sample6[0] == '#';
  }

  /** Lines that are empty or start with `#` hold no record. */
  lemma CommentsNotCounted(lines: seq<string>)
    requires forall k :: 0 <= k < |lines| ==> lines[k] == [] || lines[k][0] == '#'
    ensures CountLines(lines) == 0
  {
    forall k | 0 <= k < |lines|
      ensures !IsCountedLine(lines[k])
    {
      if lines[k] == [] {
        assert Strip(lines[k]) == [];
      } else {
        assert StartsWith(lines[k], "#");
      }
    }
    CountLinesAll(lines);
  }

  /** The payload is its title line, a newline, and the rest. */
  lemma SampleHead()
    ensures SampleHosts() == Sample1 + "\n" + Join(SampleLines()[1..])
  {
  }

  /** The payload carries the sample marker in its title line. */
  lemma SampleMarked()
    ensures Contains(SampleHosts(), SampleMarker)
    ensures SampleHosts() != []
  {
    var pre := "# Steam Hosts 配置 (";
    assert Sample1 == pre + SampleMarker + ")";
    ContainsMiddle(pre, SampleMarker, ")");
    SampleHead();
    var h := SampleHosts();
    assert h[..|Sample1|] == Sample1;
    ContainsInPrefix(h, |Sample1|, SampleMarker);
  }
}
