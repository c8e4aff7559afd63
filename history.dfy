/** The update history ledger: what one entry records, how many hosts records
    an applied text holds, the ten-entry clamp applied when the ledger is
    saved, and the clean-up of malformed records done by the history view. */
module History {
  import opened Text

  type Timestamp = s: string | '\n' !in s

  /** One history record. The first four are the dictionaries the program
      appends; `Malformed` is any record that is not a dictionary, which can
      only come from a hand-edited configuration file. */
  datatype HistoryEntry =
    | Update(time: Timestamp, count: nat)
    | SteamUpdate(time: Timestamp, count: nat)
    | Restore(time: Timestamp, backupFile: string)
    | RestoreOriginal(time: Timestamp)
    | Malformed

  predicate IsRecord(e: HistoryEntry) {
    !e.Malformed?
  }

  /** The number of entries the configuration file keeps. */
  const MaxSaved: nat := 10
  /** The number of entries the history view shows. */
  const MaxShown: nat := 5

  /** `h[-n:]` in Python. */
  function Last<T>(h: seq<T>, n: nat): (r: seq<T>)
    ensures |r| == if |h| < n then |h| else n
    ensures h == h[..|h| - |r|] + r
  {
    if |h| < n then h else h[|h| - n..]
  }

  /** `h[:-n]` in Python (empty when `h` is shorter than `n`). */
  function AllButLast<T>(h: seq<T>, n: nat): (r: seq<T>)
    ensures r + Last(h, n) == h
  {
    if |h| < n then [] else h[..|h| - n]
  }

  /** The part of the ledger the configuration file receives. */
  function Saved(h: seq<HistoryEntry>): (r: seq<HistoryEntry>)
    ensures |r| <= MaxSaved
    ensures |h| <= MaxSaved ==> r == h
    ensures |h| > MaxSaved ==> |r| == MaxSaved
  {
    Last(h, MaxSaved)
  }

  /** The saved part is the newest part of the ledger, in order. */
  lemma SavedIsSuffix(h: seq<HistoryEntry>)
    ensures exists older :: h == older + Saved(h)
  {
    TakeDrop(h, |h| - |Saved(h)|);
  }

  /** Once the ledger is full, saving after an append slides the window by one. */
  lemma SavedAfterAppend(h: seq<HistoryEntry>, e: HistoryEntry)
    ensures Saved(h + [e]) ==
      (if |h| < MaxSaved then Saved(h) + [e] else Saved(h)[1..] + [e])
  {
    var h' := h + [e];
    if |h| >= MaxSaved {
      assert h'[|h'| - MaxSaved..] == h[|h| - MaxSaved..][1..] + [e];
    }
  }

  /** The records of `h` in order (`[x for x in h if isinstance(x, dict)]`). */
  function Records(h: seq<HistoryEntry>): (r: seq<HistoryEntry>)
    ensures forall k :: 0 <= k < |r| ==> IsRecord(r[k])
    ensures |r| <= |h|
  {
    if h == [] then []
    else Records(h[..|h| - 1]) + (if IsRecord(h[|h| - 1]) then [h[|h| - 1]] else [])
  }

  lemma {:induction false} RecordsAppend(a: seq<HistoryEntry>, b: seq<HistoryEntry>)
    ensures Records(a + b) == Records(a) + Records(b)
    decreases |b|
  {
    if b == [] {
      AppendEmpty(a);
    } else {
      var b' := b[..|b| - 1];
      RecordsAppend(a, b');
      AppendInit(a, b);
    }
  }

  lemma {:induction false} RecordsMultiset(h: seq<HistoryEntry>)
    ensures forall e :: IsRecord(e) ==> multiset(Records(h))[e] == multiset(h)[e]
    ensures Malformed !in Records(h)
    decreases |h|
  {
    if h != [] {
      RecordsMultiset(h[..|h| - 1]);
      InitLast(h);
    }
  }

  /** Records(h) == h exactly when no record in `h` is malformed. */
  lemma {:induction false} RecordsOfClean(h: seq<HistoryEntry>)
    ensures Records(h) == h <==> Malformed !in h
    decreases |h|
  {
    if h != [] {
      RecordsOfClean(h[..|h| - 1]);
      InitLast(h);
      if Records(h) == h {
        RecordsMultiset(h);
      }
    }
  }

  /** The entries the history view shows: the records among the last five. */
  function Shown(h: seq<HistoryEntry>): seq<HistoryEntry> {
    Records(Last(h, MaxShown))
  }

  /** What the history view leaves in memory: when a malformed record is among
      the last five, the ledger is rebuilt as the shown records FOLLOWED by
      the records before them; otherwise it is left alone. */
  function Sanitised(h: seq<HistoryEntry>): seq<HistoryEntry> {
    if h == [] then h
    else if |Shown(h)| != |Last(h, MaxShown)| then Shown(h) + Records(AllButLast(h, MaxShown))
    else h
  }

  /** The view rebuilds the ledger exactly when a malformed record is among the
      last five; the rebuilt ledger holds no malformed record and every other
      record as often as before. */
  lemma SanitisedRecords(h: seq<HistoryEntry>)
    ensures Sanitised(h) != h <==> Malformed in Last(h, MaxShown)
    ensures Malformed in Last(h, MaxShown) ==>
      Malformed !in Sanitised(h)
      && forall e :: IsRecord(e) ==> multiset(Sanitised(h))[e] == multiset(h)[e]
  {
    var recent, older := Last(h, MaxShown), AllButLast(h, MaxShown);
    RecordsOfClean(recent);
    RecordsMultiset(recent);
    RecordsMultiset(older);
    if Malformed in recent {
      RecordsPrefixEqual(recent);
      assert |Shown(h)| != |recent|;
      TakeDrop(h, |older|);
      var s := Sanitised(h);
      assert s == Records(recent) + Records(older);
      assert Malformed !in s;
      assert forall e :: IsRecord(e) ==> multiset(s)[e] == multiset(h)[e];
      assert s != h by { assert Malformed in h; }
    }
  }

  /** The view changes the ledger exactly when it shows fewer entries than it
      looked at. */
  lemma SanitisedChanged(h: seq<HistoryEntry>)
    ensures Sanitised(h) != h <==> h != [] && |Shown(h)| != |Last(h, MaxShown)|
  {
    SanitisedRecords(h);
    RecordsOfClean(Last(h, MaxShown));
    RecordsPrefixEqual(Last(h, MaxShown));
  }

  /** A filtered list of full length is the list itself. */
  lemma {:induction false} RecordsPrefixEqual(h: seq<HistoryEntry>)
    ensures |Records(h)| == |h| ==> Records(h) == h
    decreases |h|
  {
    if h != [] && IsRecord(h[|h| - 1]) {
      var h' := h[..|h| - 1];
      RecordsPrefixEqual(h');
      InitLast(h);
    }
  }

  /** Running the view twice leaves what one run left. */
  lemma SanitisedIdempotent(h: seq<HistoryEntry>)
    ensures Sanitised(Sanitised(h)) == Sanitised(h)
  {
    SanitisedRecords(h);
    var s := Sanitised(h);
    if Malformed in Last(h, MaxShown) {
      SanitisedRecords(s);
      assert Malformed !in Last(s, MaxShown) by {
        TakeDrop(s, |s| - |Last(s, MaxShown)|);
      }
    }
  }

  /** The rebuild reverses the age order: with six entries whose newest is
      malformed, the oldest record ends up last, where the program reads
      "the most recent update". */
  lemma SanitisedReorders(a: HistoryEntry, b: HistoryEntry, c: HistoryEntry,
                          d: HistoryEntry, e: HistoryEntry)
    requires IsRecord(a) && IsRecord(b) && IsRecord(c) && IsRecord(d) && IsRecord(e)
    ensures Sanitised([a, b, c, d, e, Malformed]) == [b, c, d, e, a]
  {
    var h := [a, b, c, d, e, Malformed];
    assert Last(h, MaxShown) == [b, c, d, e, Malformed];
    assert AllButLast(h, MaxShown) == [a];
    assert Records([b, c, d, e, Malformed]) == [b, c, d, e] by {
      assert [b, c, d, e, Malformed][..4] == [b, c, d, e];
      RecordsOfClean([b, c, d, e]);
    }
    assert Records([a]) == [a] by { RecordsOfClean([a]); }
  }

  // ---------------------------------------------------------------------
  // Counting the records of an applied text

  /** A line the program counts as a hosts record: non-blank once stripped,
      and not starting with `#` as it stands (an indented comment counts). */
  predicate IsCountedLine(line: string) {
    Strip(line) != [] && !StartsWith(line, "#")
  }

  function CountLines(lines: seq<string>): (n: nat)
    ensures n <= |lines|
  {
    if lines == [] then 0
    else CountLines(lines[..|lines| - 1]) + (if IsCountedLine(lines[|lines| - 1]) then 1 else 0)
  }

  /** The number of records stored with an update. */
  function RecordCount(content: string): nat {
    CountLines(Split(content))
  }

  lemma {:induction false} CountLinesAppend(a: seq<string>, b: seq<string>)
    ensures CountLines(a + b) == CountLines(a) + CountLines(b)
    decreases |b|
  {
    if b == [] {
      AppendEmpty(a);
    } else {
      var b' := b[..|b| - 1];
      CountLinesAppend(a, b');
      AppendInit(a, b);
    }
  }

  /** Every line counted, or none. */
  lemma {:induction false} CountLinesAll(lines: seq<string>)
    ensures (forall k :: 0 <= k < |lines| ==> IsCountedLine(lines[k])) ==> CountLines(lines) == |lines|
    ensures (forall k :: 0 <= k < |lines| ==> !IsCountedLine(lines[k])) ==> CountLines(lines) == 0
    decreases |lines|
  {
    if lines != [] {
      CountLinesAll(lines[..|lines| - 1]);
    }
  }

  /** An indented comment line is counted as a record, a flush one is not. */
  lemma IndentedCommentCounts(note: string)
    requires '\n' !in note
    ensures RecordCount(" #" + note) == 1
    ensures RecordCount("#" + note) == 0
  {
    var indented, flush := " #" + note, "#" + note;
    SplitOneLine(indented);
    SplitOneLine(flush);
    assert indented[1..] == flush && IsSpace(indented[0]);
    StripDropFirst(indented);
    assert TrimStart(flush) == flush;
    assert TrimEnd(flush) != [] by { TrimEndFacts(flush); }
    assert IsCountedLine(indented) && !IsCountedLine(flush);
    CountLinesAll([indented]);
    CountLinesAll([flush]);
  }
}
