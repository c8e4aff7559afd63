/** Fetching remote text: the retry loop every download goes through, the
    two hosts sources, the choice between the Steam mirror and the direct
    GitHub address, and the completeness test applied to a downloaded hosts
    text. The network itself is a parameter: `outcome(i)` is what the i-th
    attempt at one address yields. */
module Fetch {
  import opened Text

  datatype Option<T> = None | Some(value: T)

  /** What an opened response delivers when read: UTF-8 text, or bytes that
      do not decode. */
  datatype Payload = Utf8(text: string) | NotUtf8

  /** One `urlopen` attempt: a response, or an exception. */
  datatype Attempt = Opened(body: Payload) | Failed

  /** How a call of the retry loop ends: it returns a response, re-raises the
      last failure, or (asked for no attempt at all) falls off the loop and
      returns `None`. */
  datatype FetchResult = Response(body: Payload) | Raised | NothingReturned

  /** The default number of attempts. */
  const Retries: nat := 3
  /** The pause after each failed attempt but the last, in seconds. */
  const PauseSeconds: nat := 2

  /** The body of the first attempt among `from .. retries-1` that opens. */
  function FirstOpenedFrom(outcome: nat -> Attempt, from: nat, retries: nat): (r: Option<Payload>)
    decreases retries - from
  {
    if from >= retries then None
    else if outcome(from).Opened? then Some(outcome(from).body)
    else FirstOpenedFrom(outcome, from + 1, retries)
  }

  function FirstOpened(outcome: nat -> Attempt, retries: nat): Option<Payload> {
    FirstOpenedFrom(outcome, 0, retries)
  }

  /** The first opened attempt is the first attempt that does not fail, and
      there is one exactly when some attempt in range opens. */
  lemma {:induction false} FirstOpenedFromFacts(outcome: nat -> Attempt, from: nat, retries: nat)
    ensures FirstOpenedFrom(outcome, from, retries).Some? <==>
      exists j :: from <= j < retries && outcome(j).Opened?
    ensures FirstOpenedFrom(outcome, from, retries).Some? ==>
      exists j :: from <= j < retries && outcome(j) == Opened(FirstOpenedFrom(outcome, from, retries).value)
        && forall k :: from <= k < j ==> outcome(k).Failed?
    decreases retries - from
  {
    if from < retries && !outcome(from).Opened? {
      FirstOpenedFromFacts(outcome, from + 1, retries);
      var r := FirstOpenedFrom(outcome, from, retries);
      if r.Some? {
        var j :| from + 1 <= j < retries && outcome(j) == Opened(r.value)
          && forall k :: from + 1 <= k < j ==> outcome(k).Failed?;
        assert forall k :: from <= k < j ==> outcome(k).Failed?;
      }
    }
  }

  /** The text a caller obtains from the response: its body when it decodes. */
  function Received(r: FetchResult): Option<string> {
    if r.Response? && r.body.Utf8? then Some(r.body.text) else None
  }

  /** The text a fetch of `retries` attempts delivers to its caller. */
  function Delivered(outcome: nat -> Attempt, retries: nat): Option<string> {
    var b := FirstOpened(outcome, retries);
    if b.Some? && b.value.Utf8? then Some(b.value.text) else None
  }

  /** `fetch_with_retry`: attempt after attempt until one opens, sleeping
      between attempts; after the last failed attempt the failure is raised. */
  method FetchWithRetry(outcome: nat -> Attempt, retries: nat)
    returns (r: FetchResult, attempts: nat, slept: nat)
    ensures attempts <= retries
    ensures r.Response? <==> exists j :: 0 <= j < retries && outcome(j).Opened?
    ensures r.Response? ==>
      (1 <= attempts && outcome(attempts - 1) == Opened(r.body)
       && forall k :: 0 <= k < attempts - 1 ==> outcome(k).Failed?)
    ensures r.Raised? <==> 0 < retries && forall j :: 0 <= j < retries ==> outcome(j).Failed?
    ensures r.Raised? ==> attempts == retries
    ensures r.NothingReturned? <==> retries == 0
    ensures slept == if attempts == 0 then 0 else PauseSeconds * (attempts - 1)
    ensures Received(r) == Delivered(outcome, retries)
  {
    var i: nat := 0;
    slept := 0;
    while i < retries
      invariant i <= retries && (0 < retries ==> i < retries)
      invariant forall k :: 0 <= k < i ==> outcome(k).Failed?
      invariant slept == PauseSeconds * i
      invariant FirstOpened(outcome, retries) == FirstOpenedFrom(outcome, i, retries)
    {
      var a := outcome(i);
      if a.Opened? {
        r, attempts := Response(a.body), i + 1;
        return;
      }
      if i == retries - 1 {
        r, attempts := Raised, i + 1;
        assert forall k :: 0 <= k < retries ==> outcome(k).Failed?;
        assert FirstOpenedFrom(outcome, i + 1, retries) == None;
        return;
      }
      slept := slept + PauseSeconds;
      i := i + 1;
    }
    r, attempts := NothingReturned, 0;
  }

  // ---------------------------------------------------------------------
  // Where the texts come from

  const GitHub520: string := "GitHub520"
  const TinsFox: string := "TinsFox"

  /** The hosts sources by name. */
  const HostsSources: map<string, string> := map[
    GitHub520 := "https://raw.hellogithub.com/hosts",
    TinsFox := "https://github-hosts.tinsfox.com/hosts"
  ]

  const SteamPath: string := "raw.githubusercontent.com/" + "Clov614/SteamHostSync/main/Hosts_steam"
  /** The Steam hosts file on GitHub. */
  const RawUrl: string := "https://" + SteamPath
  /** The same file through the domestic mirror. */
  const MirrorUrl: string := "https://hub.gitmirror.com/" + SteamPath

  /** The address tried first for a selection of the Steam source box. */
  function PrimaryUrl(selection: string): string {
    if Contains(selection, "GitMirror") then MirrorUrl else RawUrl
  }

  /** The address tried when the first one fails. */
  function FallbackUrl(selection: string): string {
    if Contains(selection, "GitMirror") then RawUrl else MirrorUrl
  }

  /** Whatever the selection, the fallback is the other address, so both are
      tried; the mirror comes first only when it was chosen. */
  lemma FallbackIsTheOther(selection: string)
    ensures PrimaryUrl(selection) != FallbackUrl(selection)
    ensures {PrimaryUrl(selection), FallbackUrl(selection)} == {MirrorUrl, RawUrl}
    ensures PrimaryUrl(selection) == MirrorUrl <==> Contains(selection, "GitMirror")
  {
    assert RawUrl[8] == 'r' && MirrorUrl[8] == 'h';
  }

  /** The `GitHubUser` choice has the same addresses as any other selection
      without `GitMirror`. */
  lemma GitHubUserIsDefault(selection: string, other: string)
    requires !Contains(selection, "GitMirror") && !Contains(other, "GitMirror")
    ensures PrimaryUrl(selection) == PrimaryUrl(other) == RawUrl
    ensures FallbackUrl(selection) == FallbackUrl(other) == MirrorUrl
  {
  }

  /** `validate_hosts_content`: both GitHub domains occur somewhere in the text. */
  predicate ValidHostsContent(content: string) {
    Contains(content, "github.com") && Contains(content, "raw.githubusercontent.com")
  }

  /** The test is plain substring search: a text naming both domains in one
      comment passes, an empty text fails. */
  lemma ValidHostsContentExamples(a: string, b: string)
    ensures ValidHostsContent(a + "raw.githubusercontent.com" + b)
      <==> Contains(a + "raw.githubusercontent.com" + b, "github.com")
    ensures ValidHostsContent("#" + "github.com" + " raw.githubusercontent.com")
    ensures !ValidHostsContent("")
  {
    ContainsMiddle(a, "raw.githubusercontent.com", b);
    OneCommentPasses();
  }

  lemma OneCommentPasses()
    ensures ValidHostsContent("#" + "github.com" + " raw.githubusercontent.com")
  {
    var t := "#" + "github.com" + " raw.githubusercontent.com";
    ContainsMiddle("#", "github.com", " raw.githubusercontent.com");
    assert t == "#" + "github.com" + " " + "raw.githubusercontent.com" + "";
    ContainsMiddle("#" + "github.com" + " ", "raw.githubusercontent.com", "");
  }
}
