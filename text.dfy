/** Python string primitives used by the hosts engine: `str.isspace`, `strip`,
    `split('\n')`, `'\n'.join`, the `in` substring test, `find`, `startswith`
    and the ordering `<=` on strings. */
module Text {

  /** Python's `str.isspace` for a single character. */
  predicate IsSpace(c: char) {
    ('\t' <= c <= '\r') || ('\U{1C}' <= c <= '\U{1F}') || c == ' '
    || c == '\U{85}' || c == '\U{A0}' || c == '\U{1680}'
    || ('\U{2000}' <= c <= '\U{200A}') || c == '\U{2028}' || c == '\U{2029}'
    || c == '\U{202F}' || c == '\U{205F}' || c == '\U{3000}'
  }

  /** Leading whitespace removed. */
  function TrimStart(s: string): string
    decreases |s|
  {
    if s != [] && IsSpace(s[0]) then TrimStart(s[1..]) else s
  }

  /** Trailing whitespace removed. */
  function TrimEnd(s: string): string
    decreases |s|
  {
    if s != [] && IsSpace(s[|s| - 1]) then TrimEnd(s[..|s| - 1]) else s
  }

  /** `TrimStart` removes a prefix of whitespace and stops at a non-space. */
  lemma {:induction false} TrimStartFacts(s: string)
    ensures var r := TrimStart(s);
      |r| <= |s| && r == s[|s| - |r|..] && (r == [] || !IsSpace(r[0]))
      && forall k :: 0 <= k < |s| - |r| ==> IsSpace(s[k])
    decreases |s|
  {
    if s != [] && IsSpace(s[0]) {
      TrimStartFacts(s[1..]);
    }
  }

  /** `TrimEnd` removes a suffix of whitespace and stops at a non-space. */
  lemma {:induction false} TrimEndFacts(s: string)
    ensures var r := TrimEnd(s);
      |r| <= |s| && r == s[..|r|] && (r == [] || !IsSpace(r[|r| - 1]))
      && forall k :: |r| <= k < |s| ==> IsSpace(s[k])
    decreases |s|
  {
    if s != [] && IsSpace(s[|s| - 1]) {
      TrimEndFacts(s[..|s| - 1]);
    }
  }

  /** Python's `s.strip()`. */
  function Strip(s: string): string {
    TrimEnd(TrimStart(s))
  }

  /** A stripped string begins and ends with a non-space character. */
  predicate IsStripped(s: string) {
    s == [] || (!IsSpace(s[0]) && !IsSpace(s[|s| - 1]))
  }

  /** `sub` occurs in `s` starting at index `i`. */
  predicate OccursAt(s: string, sub: string, i: int) {
    0 <= i && i + |sub| <= |s| && s[i..i + |sub|] == sub
  }

  /** Python's `sub in s`. */
  predicate Contains(s: string, sub: string) {
    exists i :: 0 <= i <= |s| - |sub| && OccursAt(s, sub, i)
  }

  /** Python's `s.startswith(p)`. */
  predicate StartsWith(s: string, p: string) {
    p <= s
  }

  /** The first index at or after `i` where `sub` occurs, or -1. */
  function FindFrom(s: string, sub: string, i: nat): (r: int)
    ensures r == -1 || (i <= r && r + |sub| <= |s|)
    decreases |s| - i
  {
    if i + |sub| > |s| then -1
    else if OccursAt(s, sub, i) then i
    else FindFrom(s, sub, i + 1)
  }

  /** Python's `s.find(sub)`: the first index of `sub`, or -1. */
  function Find(s: string, sub: string): (r: int)
    ensures r == -1 || (0 <= r && r + |sub| <= |s|)
  {
    FindFrom(s, sub, 0)
  }

  lemma {:induction false} FindFromFacts(s: string, sub: string, i: nat)
    ensures FindFrom(s, sub, i) >= 0 ==> OccursAt(s, sub, FindFrom(s, sub, i))
    ensures forall j :: i <= j && (FindFrom(s, sub, i) < 0 || j < FindFrom(s, sub, i)) ==> !OccursAt(s, sub, j)
    decreases |s| - i
  {
    if i + |sub| <= |s| && !OccursAt(s, sub, i) {
      FindFromFacts(s, sub, i + 1);
    }
  }

  /** `find` returns the first occurrence, and -1 exactly when there is none. */
  lemma FindFacts(s: string, sub: string)
    ensures Find(s, sub) >= 0 ==> OccursAt(s, sub, Find(s, sub))
    ensures forall j :: 0 <= j < Find(s, sub) ==> !OccursAt(s, sub, j)
    ensures Find(s, sub) < 0 <==> !Contains(s, sub)
  {
    FindFromFacts(s, sub, 0);
  }

  /** A contained substring is found, at an occurrence. */
  lemma FindFound(s: string, sub: string)
    requires Contains(s, sub)
    ensures Find(s, sub) >= 0 && OccursAt(s, sub, Find(s, sub))
  {
    FindFacts(s, sub);
  }

  /** Python's `s.split('\n')`: never empty, one element per line. */
  function Split(s: string): (r: seq<string>)
    ensures |r| >= 1
    ensures forall k :: 0 <= k < |r| ==> '\n' !in r[k]
    decreases |s|
  {
    if s == [] then [[]]
    else
      var rest := Split(s[1..]);
      if s[0] == '\n' then [[]] + rest
      else [[s[0]] + rest[0]] + rest[1..]
  }

  /** Python's `'\n'.join(lines)`. */
  function Join(lines: seq<string>): string
    decreases |lines|
  {
    if |lines| == 0 then []
    else if |lines| == 1 then lines[0]
    else lines[0] + "\n" + Join(lines[1..])
  }

  /** Python's `a <= b` on strings: lexicographic by code point. */
  predicate StrLe(a: string, b: string)
    decreases |a|
  {
    if a == [] then true
    else if b == [] then false
    else if a[0] != b[0] then a[0] < b[0]
    else StrLe(a[1..], b[1..])
  }

  /** `a` keeps the elements of `b` it holds in their original order. */
  predicate IsSubseq<T(==)>(a: seq<T>, b: seq<T>)
    decreases |b|
  {
    if a == [] then true
    else if b == [] then false
    else if a[0] == b[0] then IsSubseq(a[1..], b[1..])
    else IsSubseq(a, b[1..])
  }

  // ---------------------------------------------------------------------
  // Lemmas about split and join

  lemma {:induction false} SplitOneLine(s: string)
    requires '\n' !in s
    ensures Split(s) == [s]
    decreases |s|
  {
    if s != [] {
      SplitOneLine(s[1..]);
      assert [s[0]] + s[1..] == s;
    }
  }

  /** Splitting at a newline splits the two sides independently. */
  lemma {:induction false} SplitAtNewline(a: string, b: string)
    ensures Split(a + "\n" + b) == Split(a) + Split(b)
    decreases |a|
  {
    var y := a + "\n" + b;
    if a == [] {
      assert y[1..] == b;
    } else {
      assert y[0] == a[0] && y[1..] == a[1..] + "\n" + b;
      SplitAtNewline(a[1..], b);
      if a[0] != '\n' {
        ExtendFirst([a[0]], Split(a[1..]), Split(b));
      }
    }
  }

  /** Extending the first line of `s + t` extends the first line of `s`. */
  lemma ExtendFirst(h: string, s: seq<string>, t: seq<string>)
    requires s != []
    ensures [h + (s + t)[0]] + (s + t)[1..] == ([h + s[0]] + s[1..]) + t
  {
    assert (s + t)[1..] == s[1..] + t;
  }

  /** Appending one character that is not a newline extends the last line. */
  lemma {:induction false} SplitSnoc(a: string, c: char)
    requires c != '\n'
    ensures Split(a + [c]) == ExtendLast(Split(a), c)
    decreases |a|
  {
    var x := a + [c];
    if a == [] {
      assert x == [c];
      SplitOneLine([c]);
    } else {
      assert x[0] == a[0] && x[1..] == a[1..] + [c];
      SplitSnoc(a[1..], c);
      if a[0] != '\n' {
        ExtendFirstLast([a[0]], Split(a[1..]), c);
      }
    }
  }

  /** The lines with `c` added to the last one. */
  function ExtendLast(lines: seq<string>, c: char): (r: seq<string>)
    requires lines != []
    ensures |r| == |lines| && r[|r| - 1] == lines[|lines| - 1] + [c]
    ensures forall k :: 0 <= k < |lines| - 1 ==> r[k] == lines[k]
  {
    lines[..|lines| - 1] + [lines[|lines| - 1] + [c]]
  }

  /** Extending the first line and then the last is extending the last line
      of the lines with their first line extended. */
  lemma ExtendFirstLast(h: string, s: seq<string>, c: char)
    requires s != []
    ensures [h + ExtendLast(s, c)[0]] + ExtendLast(s, c)[1..] == ExtendLast([h + s[0]] + s[1..], c)
  {
    var l := ExtendLast(s, c);
    var r := ExtendLast([h + s[0]] + s[1..], c);
    assert |l| == |s|;
    if |s| == 1 {
      assert l == [s[0] + [c]];
      assert h + (s[0] + [c]) == (h + s[0]) + [c];
    } else {
      assert l[1..] == r[1..];
    }
  }

  /** A property of lines that survives dropping a leading whitespace
      character from the first line survives dropping it from the text. */
  lemma LinesDropFirst(c: char, x: string, P: string -> bool)
    requires IsSpace(c)
    requires forall k :: 0 <= k < |Split([c] + x)| ==> P(Split([c] + x)[k])
    requires P([c] + Split(x)[0]) ==> P(Split(x)[0])
    ensures forall k :: 0 <= k < |Split(x)| ==> P(Split(x)[k])
  {
    var rest := Split(x);
    var y := [c] + x;
    assert y[0] == c && y[1..] == x;
    if c != '\n' {
      assert Split(y) == [[c] + rest[0]] + rest[1..];
      assert P(Split(y)[0]);
      forall k | 1 <= k < |rest|
        ensures P(rest[k])
      {
        assert rest[k] == Split(y)[k];
      }
    } else {
      assert Split(y) == [[]] + rest;
      forall k | 0 <= k < |rest|
        ensures P(rest[k])
      {
        assert rest[k] == Split(y)[k + 1];
      }
    }
  }

  /** The same for a trailing whitespace character and the last line. */
  lemma LinesDropLast(x: string, c: char, P: string -> bool)
    requires IsSpace(c)
    requires forall k :: 0 <= k < |Split(x + [c])| ==> P(Split(x + [c])[k])
    requires P(Split(x)[|Split(x)| - 1] + [c]) ==> P(Split(x)[|Split(x)| - 1])
    ensures forall k :: 0 <= k < |Split(x)| ==> P(Split(x)[k])
  {
    var y := x + [c];
    var n := |Split(x)|;
    if c != '\n' {
      SplitSnoc(x, c);
      assert P(Split(y)[n - 1]);
      forall k | 0 <= k < n - 1
        ensures P(Split(x)[k])
      {
        assert Split(x)[k] == Split(y)[k];
      }
    } else {
      SplitAtNewline(x, []);
      assert x + "\n" + [] == y;
      assert Split(y) == Split(x) + [[]];
      forall k | 0 <= k < n
        ensures P(Split(x)[k])
      {
        assert Split(x)[k] == Split(y)[k];
      }
    }
  }

  /** Joining non-empty lines starts with the first line's first character
      and ends with the last line's last character. */
  lemma {:induction false} JoinEnds(lines: seq<string>)
    requires |lines| >= 1
    requires forall k :: 0 <= k < |lines| ==> lines[k] != []
    ensures Join(lines) != []
    ensures Join(lines)[0] == lines[0][0]
    ensures Join(lines)[|Join(lines)| - 1] == lines[|lines| - 1][|lines[|lines| - 1]| - 1]
    decreases |lines|
  {
    if |lines| > 1 {
      JoinEnds(lines[1..]);
    }
  }

  /** `join` undoes `split`. */
  lemma {:induction false} JoinSplit(s: string)
    ensures Join(Split(s)) == s
    decreases |s|
  {
    if s != [] {
      var rest := Split(s[1..]);
      JoinSplit(s[1..]);
      if s[0] == '\n' {
        assert Split(s) == [[]] + rest;
        assert ([[]] + rest)[1..] == rest;
      } else {
        var r := Split(s);
        assert r == [[s[0]] + rest[0]] + rest[1..];
        if |rest| == 1 {
          assert Join(r) == [s[0]] + rest[0];
        } else {
          assert r[1..] == rest[1..];
          assert Join(rest) == rest[0] + "\n" + Join(rest[1..]);
          assert Join(r) == [s[0]] + rest[0] + "\n" + Join(rest[1..]);
        }
        assert [s[0]] + s[1..] == s;
      }
    }
  }

  /** `split` undoes `join` of a non-empty list of lines without newlines. */
  lemma {:induction false} SplitJoin(lines: seq<string>)
    requires |lines| >= 1
    requires forall k :: 0 <= k < |lines| ==> '\n' !in lines[k]
    ensures Split(Join(lines)) == lines
    decreases |lines|
  {
    if |lines| == 1 {
      SplitOneLine(lines[0]);
    } else {
      SplitJoin(lines[1..]);
      SplitOneLine(lines[0]);
      SplitAtNewline(lines[0], Join(lines[1..]));
      assert [lines[0]] + lines[1..] == lines;
    }
  }

  /** Joining a list with a further last line. */
  lemma {:induction false} JoinSnoc(lines: seq<string>, last: string)
    requires |lines| >= 1
    ensures Join(lines + [last]) == Join(lines) + "\n" + last
    decreases |lines|
  {
    if |lines| > 1 {
      JoinSnoc(lines[1..], last);
      assert (lines + [last])[1..] == lines[1..] + [last];
    }
  }

  /** Joining two non-empty lists. */
  lemma {:induction false} JoinAppend(a: seq<string>, b: seq<string>)
    requires |a| >= 1 && |b| >= 1
    ensures Join(a + b) == Join(a) + "\n" + Join(b)
    decreases |a|
  {
    if |a| == 1 {
      assert (a + b)[1..] == b;
    } else {
      JoinAppend(a[1..], b);
      assert (a + b)[1..] == a[1..] + b;
    }
  }

  // ---------------------------------------------------------------------
  // Lemmas about strip and substring tests

  lemma StripIsSlice(s: string)
    ensures exists i, j :: (0 <= i <= j <= |s| && Strip(s) == s[i..j]
      && (forall k :: 0 <= k < i ==> IsSpace(s[k]))
      && (forall k :: j <= k < |s| ==> IsSpace(s[k])))
  {
    var t := TrimStart(s);
    TrimStartFacts(s);
    var i := |s| - |t|;
    var r := TrimEnd(t);
    TrimEndFacts(t);
    var j := i + |r|;
    assert t == s[i..];
    assert Strip(s) == s[i..j] by {
      assert r == t[..|r|];
    }
    forall k | j <= k < |s|
      ensures IsSpace(s[k])
    {
      assert s[k] == t[k - i];
    }
  }

  /** `strip()` yields a stripped string. */
  lemma StripStripped(s: string)
    ensures IsStripped(Strip(s))
  {
    var t := TrimStart(s);
    var r := TrimEnd(t);
    TrimStartFacts(s);
    TrimEndFacts(t);
    if r != [] {
      assert r[0] == t[0];
    }
  }

  /** A stripped string is its own `strip()`. */
  lemma StrippedFixed(s: string)
    requires IsStripped(s)
    ensures Strip(s) == s
  {
  }

  /** Leading whitespace does not change `strip()`. */
  lemma StripDropFirst(s: string)
    requires s != [] && IsSpace(s[0])
    ensures Strip(s[1..]) == Strip(s)
  {
  }

  /** Trailing whitespace does not change `strip()`. */
  lemma StripDropLast(s: string)
    requires s != [] && IsSpace(s[|s| - 1])
    ensures Strip(s[..|s| - 1]) == Strip(s)
  {
    var u := s[..|s| - 1];
    TrimStartFacts(s);
    TrimStartFacts(u);
    if TrimStart(s) == [] {
      assert forall k :: 0 <= k < |u| ==> IsSpace(u[k]);
      TrimStartAllSpace(u);
    } else {
      assert u + [s[|s| - 1]] == s;
      TrimStartSnoc(u, s[|s| - 1]);
      var t := TrimStart(u);
      assert (t + [s[|s| - 1]])[..|t|] == t;
    }
  }

  lemma {:induction false} TrimStartAllSpace(s: string)
    requires forall k :: 0 <= k < |s| ==> IsSpace(s[k])
    ensures TrimStart(s) == []
    decreases |s|
  {
    if s != [] {
      TrimStartAllSpace(s[1..]);
    }
  }

  lemma {:induction false} TrimStartSnoc(s: string, c: char)
    requires TrimStart(s + [c]) != []
    ensures TrimStart(s + [c]) == TrimStart(s) + [c]
    decreases |s|
  {
    if s != [] {
      assert (s + [c])[0] == s[0];
      if IsSpace(s[0]) {
        assert (s + [c])[1..] == s[1..] + [c];
        TrimStartSnoc(s[1..], c);
      }
    }
  }

  /** An occurrence inside a slice is an occurrence in the whole string. */
  lemma OccursInSlice(s: string, i: nat, j: nat, sub: string, k: int)
    requires i <= j <= |s|
    ensures OccursAt(s[i..j], sub, k) ==> OccursAt(s, sub, i + k)
  {
    if OccursAt(s[i..j], sub, k) {
      var a, b := s[i..j][k..k + |sub|], s[i + k..i + k + |sub|];
      forall m | 0 <= m < |sub|
        ensures a[m] == b[m]
      {
      }
    }
  }

  /** A slice that ends where `sub` first occurs does not contain `sub`. */
  lemma NoneBeforeFind(s: string, sub: string, i: nat)
    requires sub != [] && Contains(s, sub) && i <= Find(s, sub)
    ensures !Contains(s[i..Find(s, sub)], sub)
  {
    var j := Find(s, sub);
    FindFacts(s, sub);
    forall k | 0 <= k <= (j - i) - |sub|
      ensures !OccursAt(s[i..j], sub, k)
    {
      OccursInSlice(s, i, j, sub, k);
    }
  }

  /** The substring test survives widening the string on either side. */
  lemma ContainsInSuffix(s: string, k: nat, sub: string)
    requires k <= |s| && Contains(s[k..], sub)
    ensures Contains(s, sub)
  {
    var i :| 0 <= i <= |s[k..]| - |sub| && OccursAt(s[k..], sub, i);
    assert s[k..][i..i + |sub|] == s[k + i..k + i + |sub|];
    assert OccursAt(s, sub, k + i);
  }

  lemma ContainsInPrefix(s: string, k: nat, sub: string)
    requires k <= |s| && Contains(s[..k], sub)
    ensures Contains(s, sub)
  {
    var i :| 0 <= i <= |s[..k]| - |sub| && OccursAt(s[..k], sub, i);
    assert s[..k][i..i + |sub|] == s[i..i + |sub|];
    assert OccursAt(s, sub, i);
  }

  lemma ContainsInSlice(s: string, i: nat, j: nat, sub: string)
    requires i <= j <= |s| && Contains(s[i..j], sub)
    ensures Contains(s, sub)
  {
    assert s[i..j] == s[..j][i..];
    ContainsInSuffix(s[..j], i, sub);
    ContainsInPrefix(s, j, sub);
  }

  /** A string lacking one of the characters of `sub` does not contain it. */
  lemma NotContainsChar(s: string, sub: string, k: nat)
    requires k < |sub| && sub[k] !in s
    ensures !Contains(s, sub)
  {
    forall i | 0 <= i <= |s| - |sub|
      ensures !OccursAt(s, sub, i)
    {
      assert s[i..i + |sub|][k] == s[i + k] != sub[k];
    }
  }

  /** `sub` occurs in any text of the form `a + sub + b`. */
  lemma ContainsMiddle(a: string, sub: string, b: string)
    ensures Contains(a + sub + b, sub)
  {
    assert (a + sub + b)[|a|..|a| + |sub|] == sub;
    assert OccursAt(a + sub + b, sub, |a|);
  }

  /** A string that starts with a non-space character is not blank. */
  lemma StripNonEmpty(s: string)
    requires s != [] && !IsSpace(s[0])
    ensures Strip(s) != []
  {
    assert TrimStart(s) == s;
    TrimEndFacts(s);
  }

  /** A string that strips to nothing is all whitespace. */
  lemma StripEmptyAllSpace(s: string)
    requires Strip(s) == []
    ensures forall k :: 0 <= k < |s| ==> IsSpace(s[k])
  {
    TrimStartFacts(s);
    TrimEndFacts(TrimStart(s));
  }

  /** A trailing newline is all that `strip()` removes from a stripped text. */
  lemma StripNewline(s: string)
    requires IsStripped(s)
    ensures Strip(s + "\n") == s
  {
    StripDropLast(s + "\n");
    assert (s + "\n")[..|s|] == s;
    StrippedFixed(s);
  }

  /** Growing a prefix by one element. */
  lemma PrefixSnoc<T>(s: seq<T>, i: nat)
    requires i < |s|
    ensures s[..i + 1][..i] == s[..i]
    ensures s[..i + 1][i] == s[i]
  {
  }

  /** All but the last element of `a + b`, for a non-empty `b`. */
  lemma AppendInit<T>(a: seq<T>, b: seq<T>)
    requires b != []
    ensures (a + b)[..|a + b| - 1] == a + b[..|b| - 1]
    ensures (a + b)[|a + b| - 1] == b[|b| - 1]
  {
  }

  lemma AppendAssoc<T>(a: seq<T>, b: seq<T>, c: seq<T>)
    ensures a + b + c == a + (b + c)
  {
  }

  lemma AppendEmpty<T>(a: seq<T>)
    ensures a + [] == a && [] + a == a
  {
  }

  /** A non-empty sequence is all but its last element, then the last. */
  lemma InitLast<T>(s: seq<T>)
    requires s != []
    ensures s == s[..|s| - 1] + [s[|s| - 1]]
  {
  }

  /** A non-empty sequence is its first element, then the rest. */
  lemma HeadTail<T>(s: seq<T>)
    requires s != []
    ensures s == [s[0]] + s[1..]
  {
  }

  /** A sequence is its first `k` elements, then the rest. */
  lemma TakeDrop<T>(s: seq<T>, k: nat)
    requires k <= |s|
    ensures s == s[..k] + s[k..]
  {
  }

  lemma TakeNone<T>(s: seq<T>)
    ensures s[..0] == []
  {
  }

  /** Three elements then four are a first element, a run of five and a last. */
  lemma FirstFiveLast<T>(x0: T, x1: T, x2: T, x3: T, x4: T, x5: T, x6: T)
    ensures [x0, x1, x2] + [x3, x4, x5, x6] == [x0] + [x1, x2, x3, x4, x5] + [x6] + []
  {
  }

  /** Two marked runs, each closed by `e`: the first marker, its run, its closing
      element, then the second marked run with its own. */
  lemma TwoClosedRuns<T>(m1: T, a: T, b: T, e: T, m2: T, c: T)
    ensures [m1, a, b, e, m2, c, e] == [m1] + [a, b] + [e] + ([m2] + [c] + [e] + [])
  {
  }

  /** The full prefix is the sequence. */
  lemma FullPrefix<T>(s: seq<T>)
    ensures s[..|s|] == s
  {
  }

  /** The elements of a sequence are those of all but its last and the last. */
  lemma MultisetOfSnoc<T>(s: seq<T>)
    requires s != []
    ensures multiset(s) == multiset(s[..|s| - 1]) + multiset{s[|s| - 1]}
  {
    assert s == s[..|s| - 1] + [s[|s| - 1]];
  }

  /** The subsequence order survives appending the same element to both sides,
      or to the larger side alone. */
  lemma {:induction false} SubseqSnoc<T>(a: seq<T>, b: seq<T>, x: T)
    requires IsSubseq(a, b)
    ensures IsSubseq(a, b + [x]) && IsSubseq(a + [x], b + [x])
    decreases |b|
  {
    if a != [] && b != [] {
      assert (b + [x])[1..] == b[1..] + [x];
      if a[0] == b[0] {
        assert (a + [x])[1..] == a[1..] + [x];
        SubseqSnoc(a[1..], b[1..], x);
      } else {
        SubseqSnoc(a, b[1..], x);
      }
    } else if a == [] {
      assert a + [x] == [x];
      SubseqOfAny([x], b);
    }
  }

  /** `[x]` is a subsequence of `b + [x]`, the empty list of anything. */
  lemma {:induction false} SubseqOfAny<T>(a: seq<T>, b: seq<T>)
    requires |a| == 1
    ensures IsSubseq(a, b + a) && IsSubseq([], b)
    decreases |b|
  {
    if b != [] {
      assert (b + a)[1..] == b[1..] + a;
      SubseqOfAny(a, b[1..]);
    }
  }

  // ---------------------------------------------------------------------
  // The ordering of strings

  /** Python's string order is total. */
  lemma {:induction false} StrLeTotal(a: string, b: string)
    ensures StrLe(a, b) || StrLe(b, a)
    decreases |a|
  {
    if a != [] && b != [] && a[0] == b[0] {
      StrLeTotal(a[1..], b[1..]);
    }
  }

  /** Python's string order is transitive. */
  lemma {:induction false} StrLeTrans(a: string, b: string, c: string)
    requires StrLe(a, b) && StrLe(b, c)
    ensures StrLe(a, c)
    decreases |a|
  {
    if a != [] && b != [] && c != [] && a[0] == b[0] && b[0] == c[0] {
      StrLeTrans(a[1..], b[1..], c[1..]);
    }
  }

  // ---------------------------------------------------------------------
  // Reading a text file

  /** What Python's text-mode read returns for the characters of a file:
      universal newlines turn `\r\n` and a lone `\r` into `\n`. */
  function ReadText(s: string): (r: string)
    ensures '\r' !in r
    ensures |r| <= |s|
    decreases |s|
  {
    if s == [] then []
    else if s[0] == '\r' then "\n" + ReadText(if |s| > 1 && s[1] == '\n' then s[2..] else s[1..])
    else [s[0]] + ReadText(s[1..])
  }

  /** A text without carriage returns is read as it is stored. */
  lemma {:induction false} ReadTextFixed(s: string)
    requires '\r' !in s
    ensures ReadText(s) == s
    decreases |s|
  {
    if s != [] {
      ReadTextFixed(s[1..]);
      assert s == [s[0]] + s[1..];
    }
  }

  /** Reading twice is reading once. */
  lemma ReadTextIdempotent(s: string)
    ensures ReadText(ReadText(s)) == ReadText(s)
  {
    ReadTextFixed(ReadText(s));
  }

  /** Reading `a + b` is reading `a`, then `b`, unless `a` ends in a carriage
      return that `b` might pair with. */
  lemma {:induction false} ReadTextAppend(a: string, b: string)
    requires a == [] || a[|a| - 1] != '\r'
    ensures ReadText(a + b) == ReadText(a) + ReadText(b)
    decreases |a|
  {
    if a == [] {
      assert a + b == b;
    } else {
      var ab := a + b;
      var k := if a[0] == '\r' && a[1] == '\n' then 2 else 1;
      assert ab[0] == a[0] && (a[0] == '\r' ==> |a| > 1 && ab[1] == a[1]);
      assert ab[k..] == a[k..] + b;
      var head := if a[0] == '\r' then "\n" else [a[0]];
      assert ReadText(ab) == head + ReadText(ab[k..]);
      assert ReadText(a) == head + ReadText(a[k..]);
      ReadTextAppend(a[k..], b);
      AppendAssoc(head, ReadText(a[k..]), ReadText(b));
    }
  }

  /** Both Windows and old Mac line endings read as a newline. */
  lemma ReadTextLineEndings()
    ensures ReadText("a\r\nb") == "a\nb"
    ensures ReadText("a\rb") == "a\nb"
  {
    assert "a\r\nb"[1..] == "\r\nb" && "\r\nb"[2..] == "b";
    assert "a\rb"[1..] == "\rb" && "\rb"[1..] == "b";
    assert "b"[1..] == [];
  }

  /** A character other than the newline that no line holds is not in their
      join. */
  lemma {:induction false} JoinLacks(lines: seq<string>, c: char)
    requires c != '\n'
    requires forall k :: 0 <= k < |lines| ==> c !in lines[k]
    ensures c !in Join(lines)
    decreases |lines|
  {
    if |lines| > 1 {
      JoinLacks(lines[1..], c);
    }
  }

  /** A character missing from a text is missing from each of its lines. */
  lemma {:induction false} SplitLacks(s: string, c: char)
    requires c !in s
    ensures forall k :: 0 <= k < |Split(s)| ==> c !in Split(s)[k]
    decreases |s|
  {
    if s != [] {
      SplitLacks(s[1..], c);
    }
  }
}
