/** The `/search_candidates` handler of teamsBot.js (lines 51-136): the query
    it extracts from the message, the shaping of the search service's
    answer into one text entry per candidate, and the messages it sends.

    The HTTP call itself is not modelled: the service's answer (or the
    failure of the call) is an input, `Response`, consulted only when the
    handler decides to issue the request. */
module Search {
  import opened Wrappers
  import opened Text
  import Chunking

  /** The command word the handler is registered for (matched ignoring case). */
  const Command: string := "/search_candidates"

  /** At most this many results are rendered (line 74). */
  const MaxResults: nat := 20

  /** Removed from a result's file name to get the employee ID (line 77). */
  const TxtSuffix: string := ".txt"

  /** The key searched for in a result's text (line 81, ignoring case). */
  const NameKey: string := "name="

  /** The display name used when the text carries no `name=` field. */
  const Unknown: string := "Unknown"

  /** The number of words kept in a summary snippet (line 86). */
  const SnippetWords: nat := 10

  /** Appended to every snippet. */
  const Ellipsis: string := " ..."

  // The fixed message texts, as the file spells them.
  const ValidationMessage: string :=
    "\U{00E2}\U{0165}\U{2014} Please provide a query after `/search_candidates`."
  const NoCandidatesMessage: string :=
    "\U{00E2}\U{0161}\U{00A0}\U{010F}\U{00B8}\U{0179} No candidates found."
  const ErrorHeading: string := "\U{00E2}\U{0165}\U{015A} Search Candidates Error:\n"
  const PersonIcon: string := "\U{0111}\U{017A}\U{00A7}\U{2018}"
  const IdIcon: string := "\U{0111}\U{017A}\U{201C}\U{201E}"
  const NotAvailable: string := "N/A"

  /** The error detail of the `TypeError` raised when a result has no string
      `filename` or `text`; its wording belongs to the JavaScript engine. */
  const TypeErrorDetail: string := "TypeError"

  /** The message reporting a failed request or a failure while shaping. */
  function ErrorMessage(detail: string): string {
    ErrorHeading + "```" + detail + "```"
  }

  // ---------------------------------------------------------------------
  // Query extraction (lines 51-57)

  /** `text` starts with `/^\/search_candidates\s+/i`. */
  predicate HasCommandPrefix(text: string)
    ensures HasCommandPrefix(text) ==> |text| > |Command| && IsSpace(text[|Command|])
    ensures HasCommandPrefix(text) ==> forall k :: 0 <= k < |Command| ==> LowerAscii(text[k]) == LowerAscii(Command[k])
  {
    |text| > |Command| && StartsWithIgnoreCase(text, Command) && IsSpace(text[|Command|])
  }

  /** `text.replace(/^\/search_candidates\s+/i, "")`: the command and all the
      whitespace after it are removed; text without that prefix is left
      alone. */
  function StripCommand(text: string): (r: string)
    ensures |r| <= |text| && r == text[|text| - |r|..]
    ensures !HasCommandPrefix(text) ==> r == text
    ensures HasCommandPrefix(text) ==>
              |r| < |text| - |Command| && AllSpaces(text[|Command|..|text| - |r|])
              && (r == [] || !IsSpace(r[0]))
  {
    if HasCommandPrefix(text) then SkipSpaces(text[|Command|..]) else text
  }

  /** The query of line 52: the message with its command prefix stripped,
      then trimmed. */
  function ExtractQuery(text: string): (q: string)
    ensures HasCommandPrefix(text) ==> q == Trim(text[|Command|..])
    ensures !HasCommandPrefix(text) ==> q == Trim(text)
    ensures q == [] || (!IsSpace(q[0]) && !IsSpace(q[|q| - 1]))
    ensures q == [] <==> AllSpaces(if HasCommandPrefix(text) then text[|Command|..] else text)
  {
    if HasCommandPrefix(text) then
      TrimAfterSkip(text[|Command|..]);
      Trim(StripCommand(text))
    else
      Trim(text)
  }

  // ---------------------------------------------------------------------
  // Employee ID (line 77)

  /** `r.filename.replace(".txt", "")`. */
  function EmployeeId(filename: string): (id: string)
    ensures IndexOf(filename, TxtSuffix).None? ==> id == filename
    ensures IndexOf(filename, TxtSuffix).Some? ==> |id| == |filename| - |TxtSuffix|
  {
    ReplaceFirst(filename, TxtSuffix, "")
  }

  /** A file name without ".txt" is its own employee ID. */
  lemma EmployeeIdWithoutSuffix(filename: string)
    requires forall k :: !OccursAt(filename, TxtSuffix, k)
    ensures EmployeeId(filename) == filename
  {
  }

  /** Only the FIRST ".txt" is removed, wherever it stands: a file name
      that reads `pre + ".txt" + post`, with no ".txt" starting inside
      `pre`, has the employee ID `pre + post`. */
  lemma EmployeeIdRemovesFirst(pre: string, post: string)
    requires forall k :: 0 <= k < |pre| ==> !OccursAt(pre + TxtSuffix + post, TxtSuffix, k)
    ensures EmployeeId(pre + TxtSuffix + post) == pre + post
  {
    ReplaceLeftmost(pre, TxtSuffix, post, "");
  }

  // ---------------------------------------------------------------------
  // Display name (lines 80-84)

  /** A character of the capture group `[^,}]`. */
  predicate IsNameChar(c: char) {
    c != ',' && c != '}'
  }

  /** `name=` (ignoring case) stands at index `i`. */
  predicate NameKeyAt(s: string, i: int) {
    0 <= i && i + |NameKey| <= |s| && EqualsIgnoreCase(s[i..i + |NameKey|], NameKey)
  }

  /** `/name=([^,}]+)/i` matches at index `i`: the key, then at least one
      name character. */
  predicate NameMatchAt(s: string, i: int) {
    NameKeyAt(s, i) && i + |NameKey| < |s| && IsNameChar(s[i + |NameKey|])
  }

  /** The regex engine's left-to-right scan for the first match at or after
      `from`. */
  function FirstNameMatch(s: string, from: nat): (r: Option<nat>)
    ensures r.Some? ==> from <= r.value && NameMatchAt(s, r.value)
    ensures r.Some? ==> forall k :: from <= k < r.value ==> !NameMatchAt(s, k)
    ensures r.None? ==> forall k :: from <= k ==> !NameMatchAt(s, k)
    decreases |s| - from
  {
    if from + |NameKey| >= |s| then None
    else if NameMatchAt(s, from) then Some(from)
    else FirstNameMatch(s, from + 1)
  }

  /** `s[start..start + n]` is a maximal run of name characters. */
  predicate NameRun(s: string, start: int, n: int) {
    && 0 <= start && 0 <= n && start + n <= |s|
    && (forall k :: start <= k < start + n ==> IsNameChar(s[k]))
    && (start + n == |s| || !IsNameChar(s[start + n]))
  }

  /** The greedy `[^,}]+`: how many name characters follow `start`. */
  function NameRunLength(s: string, start: nat): (n: nat)
    requires start <= |s|
    ensures NameRun(s, start, n)
    decreases |s| - start
  {
    if start < |s| && IsNameChar(s[start]) then 1 + NameRunLength(s, start + 1) else 0
  }

  /** The display name: the first match's capture, trimmed, or "Unknown". */
  function ExtractName(text: string): (name: string)
    ensures forall k :: 0 <= k < |name| ==> IsNameChar(name[k])
    ensures (forall i :: !NameMatchAt(text, i)) ==> name == Unknown
  {
    match FirstNameMatch(text, 0)
    case None => Unknown
    case Some(i) => CapturedName(text, i + |NameKey|)
  }

  /** The capture group starting at `start`, trimmed. */
  function CapturedName(text: string, start: nat): (name: string)
    requires start <= |text|
    ensures forall k :: 0 <= k < |name| ==> IsNameChar(name[k])
  {
    var run := text[start..start + NameRunLength(text, start)];
    assert forall k :: 0 <= k < |run| ==> IsNameChar(run[k]);
    Trim(run)
  }

  /** A maximal run of name characters is unique. */
  lemma NameRunUnique(s: string, start: int, n: int, m: int)
    requires NameRun(s, start, n) && NameRun(s, start, m)
    ensures n == m
  {
  }

  /** The name, described without the scan: with no match it is "Unknown";
      otherwise it is the trimmed maximal run of name characters after the
      leftmost `name=` that is followed by at least one of them. */
  lemma ExtractNameSpec(text: string, i: int, start: int, n: int)
    requires NameMatchAt(text, i) && forall k :: 0 <= k < i ==> !NameMatchAt(text, k)
    requires start == i + |NameKey| && NameRun(text, start, n)
    ensures n >= 1
    ensures ExtractName(text) == Trim(text[start..start + n])
  {
    FirstMatchUnique(text, i);
    CapturedNameSpec(text, start, n);
  }

  /** The captured name is the trimmed maximal run. */
  lemma CapturedNameSpec(text: string, start: nat, n: int)
    requires NameRun(text, start, n)
    ensures CapturedName(text, start) == Trim(text[start..start + n])
  {
    NameRunUnique(text, start, n, NameRunLength(text, start));
  }

  /** The scan from the start finds the leftmost match. */
  lemma FirstMatchUnique(text: string, i: nat)
    requires NameMatchAt(text, i) && forall k :: 0 <= k < i ==> !NameMatchAt(text, k)
    ensures FirstNameMatch(text, 0) == Some(i)
  {
    var r := FirstNameMatch(text, 0);
    assert r.Some?;
    assert !(r.value < i);
    assert !(r.value > i);
  }

  /** The trim comes after the match, so a `name=` followed only by blanks
      (and then a comma) gives an empty name, not "Unknown". */
  lemma BlankNameIsEmpty(blanks: string)
    requires blanks != [] && AllSpaces(blanks)
    ensures ExtractName(NameKey + blanks + ",") == ""
  {
    var text := NameKey + blanks + ",";
    var start := |NameKey|;
    assert text[..start] == NameKey;
    assert text[start..start + |blanks|] == blanks;
    assert NameKeyAt(text, 0) by {
      assert text[0..start] == NameKey;
    }
    assert NameRun(text, start, |blanks|) by {
      assert forall k :: start <= k < start + |blanks| ==> text[k] == blanks[k - start];
      assert text[start + |blanks|] == ',';
    }
    assert IsSpace(text[start]);
    ExtractNameSpec(text, 0, start, |blanks|);
  }

  // ---------------------------------------------------------------------
  // Summary snippet (line 86)

  /** `r.text.split(/\s+/).slice(0, 10).join(" ") + " ..."`: at most ten
      words are kept, so the text before " ..." holds fewer than ten
      spaces. */
  function Snippet(text: string): (r: string)
    ensures exists body :: r == body + Ellipsis && Occurrences(body, ' ') < SnippetWords
  {
    var words := SplitOnSpaces(text);
    var n := if |words| < SnippetWords then |words| else SnippetWords;
    var kept := words[..n];
    assert forall t :: t in kept ==> t in words;
    JoinSpaceCount(kept);
    JoinWith(kept, " ") + Ellipsis
  }

  /** The snippet is the text with whitespace runs collapsed to one space,
      cut after its tenth word, followed by " ...": a text of at most ten
      words appears whole, and of a longer one exactly the part before the
      tenth space is kept. */
  lemma SnippetSpec(text: string)
    ensures exists body :: Snippet(text) == body + Ellipsis && body <= CollapseSpaces(text)
    ensures |SplitOnSpaces(text)| <= SnippetWords ==>
              Snippet(text) == CollapseSpaces(text) + Ellipsis
    ensures |SplitOnSpaces(text)| > SnippetWords ==>
              exists body :: && Snippet(text) == body + Ellipsis
                             && body + " " <= CollapseSpaces(text)
                             && Occurrences(body, ' ') == SnippetWords - 1
  {
    var words := SplitOnSpaces(text);
    var n := if |words| < SnippetWords then |words| else SnippetWords;
    var body := JoinWith(words[..n], " ");
    assert Snippet(text) == body + Ellipsis;
    SplitJoinCollapses(text);
    assert body <= CollapseSpaces(text) by {
      JoinPrefix(words, n, " ");
    }
    if n == |words| {
      assert words[..n] == words;
    } else {
      KeepFirstWords(words, n);
    }
  }

  /** Keeping the first `n` of more whitespace-free words: their join,
      followed by one space, starts the join of all, and holds `n - 1`
      spaces. */
  lemma KeepFirstWords(words: seq<string>, n: nat)
    requires 1 <= n < |words|
    requires forall t :: t in words ==> forall k :: 0 <= k < |t| ==> !IsSpace(t[k])
    ensures JoinWith(words[..n], " ") + " " <= JoinWith(words, " ")
    ensures Occurrences(JoinWith(words[..n], " "), ' ') == n - 1
  {
    var kept := words[..n];
    assert forall t :: t in kept ==> t in words;
    JoinSpaceCount(kept);
    JoinPrefixSep(words, n, " ");
  }

  // ---------------------------------------------------------------------
  // One entry per result (lines 76-113)

  /** One element of the service's `results`. A missing (or non-string)
      `filename` or `text` is `None`; the scores are kept as the text the
      template literal would print for them. */
  datatype SearchResult = SearchResult(
    filename: Option<string>,
    text: Option<string>,
    keywordScore: Option<string>,
    vectorScore: Option<string>,
    hybridScore: Option<string>)

  /** The line of a score, "N/A" when it is missing (`?? "N/A"`). */
  function ScoreLine(kind: string, score: Option<string>): (line: string)
    ensures "- **" + kind <= line
    ensures var shown := score.GetOr(NotAvailable);
      |shown| < |line| && line[|line| - |shown| - 1..] == shown + "\n"
  {
    "- **" + kind + " Score:** " + score.GetOr(NotAvailable) + "\n"
  }

  /** The text of an entry after its leading icon (lines 105-111). */
  function EntryBody(name: string, id: string, r: SearchResult, snippet: string, links: string): (b: string)
    ensures " *" + name + "*\n" <= b
    ensures links != "" ==> |links| <= |b| && b[|b| - |links|..] == links
    ensures links == "" ==> |b| >= 2 && b[|b| - 2..] == "`\n"
  {
    " *" + name + "*\n"
    + IdIcon + " *Employee ID:* `" + id + "`\n"
    + ScoreLine("Keyword", r.keywordScore)
    + ScoreLine("Vector", r.vectorScore)
    + ScoreLine("Hybrid", r.hybridScore)
    + "- **Summary Snippet:** `" + snippet + "`\n"
    + (if links == "" then "" else "- **Profiles:** " + links)
  }

  /** Formatting `r` raises no `TypeError`: it has a string `filename` and
      `text`, and the profile lookup of lines 100-101 does not throw. */
  predicate Shapeable(r: SearchResult, profiles: string -> Option<string>) {
    r.filename.Some? && r.text.Some? && profiles(r.text.value).Some?
  }

  /** The formatted entry of one result. `profiles` stands for the social
      profile heuristic of lines 88-102 applied to the result's text:
      `Some(links)` with its joined links ("" when there are none), or
      `None` when line 100 or 101 throws, which happens when the parsed text
      is `null` or lists a `null` profile. `None` is the `TypeError` raised
      by a result without a string `filename` or `text`, or by that
      lookup. */
  function FormatEntry(r: SearchResult, profiles: string -> Option<string>): (e: Option<string>)
    ensures e.Some? <==> Shapeable(r, profiles)
    ensures e.Some? ==> |e.value| > |PersonIcon| && e.value[..|PersonIcon|] == PersonIcon
  {
    if r.filename.None? || r.text.None? then None
    else
      var text := r.text.value;
      match profiles(text)
      case None => None
      case Some(links) =>
        var body := EntryBody(ExtractName(text), EmployeeId(r.filename.value), r, Snippet(text), links);
        assert |body| > 0 by { assert body[0] == ' '; }
        assert (PersonIcon + body)[..|PersonIcon|] == PersonIcon;
        Some(PersonIcon + body)
  }

  /** `xs.map(f)` for an `f` that may throw (`None`): the first throw
      aborts the whole map. */
  function MapOrThrow<T, U>(xs: seq<T>, f: T -> Option<U>): (ys: Option<seq<U>>)
    ensures ys.Some? <==> forall i :: 0 <= i < |xs| ==> f(xs[i]).Some?
    ensures ys.Some? ==> |ys.value| == |xs|
    ensures ys.Some? ==> forall i :: 0 <= i < |xs| ==> f(xs[i]) == Some(ys.value[i])
  {
    if xs == [] then Some([])
    else
      assert forall i :: 1 <= i < |xs| ==> xs[i] == xs[1..][i - 1];
      match f(xs[0])
      case None => None
      case Some(y) =>
        match MapOrThrow(xs[1..], f)
        case None => None
        case Some(ys) =>
          var all := [y] + ys;
          assert forall i :: 0 <= i < |ys| ==> all[i + 1] == ys[i];
          Some(all)
  }

  /** The callback of line 76. */
  function Formatter(profiles: string -> Option<string>): (f: SearchResult -> Option<string>)
    ensures forall r :: f(r) == FormatEntry(r, profiles)
  {
    r => FormatEntry(r, profiles)
  }

  /** The first `MaxResults` results (`slice(0, 20)`). */
  function TopResults(rs: seq<SearchResult>): (top: seq<SearchResult>)
    ensures |top| == if |rs| < MaxResults then |rs| else MaxResults
    ensures top <= rs
  {
    if |rs| <= MaxResults then rs else rs[..MaxResults]
  }

  /** The formatted entries of the top results (lines 74-113): exactly
      min(n, 20) of them, entry i formatting result i, in the results'
      order. */
  function ShapeResults(rs: seq<SearchResult>, profiles: string -> Option<string>): (shaped: Option<seq<string>>)
    ensures shaped.Some? ==> |shaped.value| == (if |rs| < MaxResults then |rs| else MaxResults)
    ensures shaped.Some? ==> forall i :: 0 <= i < |shaped.value| ==> FormatEntry(rs[i], profiles) == Some(shaped.value[i])
  {
    var top := TopResults(rs);
    assert forall i :: 0 <= i < |top| ==> top[i] == rs[i];
    MapOrThrow(top, Formatter(profiles))
  }

  /** Shaping fails exactly when formatting one of the first 20 results
      throws. */
  lemma ShapeResultsSpec(rs: seq<SearchResult>, profiles: string -> Option<string>)
    ensures ShapeResults(rs, profiles).Some?
        <==> forall i :: 0 <= i < |rs| && i < MaxResults ==> Shapeable(rs[i], profiles)
  {
    var top := TopResults(rs);
    assert forall i :: 0 <= i < |top| ==> top[i] == rs[i];
  }

  /** Results past the twentieth are never looked at. */
  lemma ShapeIgnoresRest(rs: seq<SearchResult>, more: seq<SearchResult>, profiles: string -> Option<string>)
    requires |rs| >= MaxResults
    ensures ShapeResults(rs + more, profiles) == ShapeResults(rs, profiles)
  {
    assert TopResults(rs + more) == TopResults(rs);
  }

  // ---------------------------------------------------------------------
  // The handler (lines 51-136)

  /** What the search service did with the request: the call failed (with
      the upstream error body or the exception's message as `detail`), or it
      answered, with `None` for a body that has no `results`. */
  datatype Response = Failed(detail: string) | Answered(results: Option<seq<SearchResult>>)

  /** What the handler did: the query it posted, if it posted one, and the
      messages it sent, in order. */
  datatype Outcome = Outcome(request: Option<string>, messages: seq<string>)

  /** The messages sent once the service has answered or failed. There is
      always at least one; a failed call, an empty answer and a failure
      while shaping each send exactly one message, so no partial results
      are ever sent. */
  function ReplyTo(response: Response, profiles: string -> Option<string>): (msgs: seq<string>)
    ensures msgs != []
    ensures response.Failed? ==> msgs == [ErrorMessage(response.detail)]
    ensures response.Answered? && (response.results.None? || response.results.value == []) ==>
              msgs == [NoCandidatesMessage]
    ensures response.Answered? && response.results.Some? && response.results.value != []
            && (exists i :: 0 <= i < |response.results.value| && i < MaxResults
                          && !Shapeable(response.results.value[i], profiles)) ==>
              msgs == [ErrorMessage(TypeErrorDetail)]
  {
    match response
    case Failed(detail) => [ErrorMessage(detail)]
    case Answered(None) => [NoCandidatesMessage]
    case Answered(Some(rs)) =>
      if rs == [] then [NoCandidatesMessage]
      else
        ShapeResultsSpec(rs, profiles);
        match ShapeResults(rs, profiles)
        case None => [ErrorMessage(TypeErrorDetail)]
        case Some(entries) =>
          Chunking.GroupsSpec(entries);
          Chunking.RenderAll(Chunking.Groups(entries))
  }

  /** The handler. `response` is what the request would bring back; it is
      looked at only when a request is made. */
  function HandleSearch(text: string, response: Response, profiles: string -> Option<string>): (o: Outcome)
    ensures o.request.None? <==> ExtractQuery(text) == ""
    ensures o.request.None? ==> o.messages == [ValidationMessage]
    ensures o.request.Some? ==> o.request.value == ExtractQuery(text) && o.request.value != []
    ensures o.request.Some? ==> o.messages == ReplyTo(response, profiles)
    ensures o.request.Some? && response.Failed? ==> o.messages == [ErrorMessage(response.detail)]
    ensures o.messages != []
  {
    var query := ExtractQuery(text);
    if query == "" then Outcome(None, [ValidationMessage])
    else Outcome(Some(query), ReplyTo(response, profiles))
  }

  /** The reply to a successful search is the chunks of the formatted
      entries of the first 20 results. */
  lemma SuccessfulSearchChunks(rs: seq<SearchResult>, profiles: string -> Option<string>)
    requires rs != []
    requires forall i :: 0 <= i < |rs| && i < MaxResults ==> Shapeable(rs[i], profiles)
    ensures var shaped := ShapeResults(rs, profiles);
      && shaped.Some?
      && |shaped.value| == (if |rs| < MaxResults then |rs| else MaxResults)
      && (forall i :: 0 <= i < |shaped.value| ==> FormatEntry(rs[i], profiles) == Some(shaped.value[i]))
      && ReplyTo(Answered(Some(rs)), profiles) == Chunking.RenderAll(Chunking.Groups(shaped.value))
  {
    ShapeResultsSpec(rs, profiles);
  }

  /** A successful search sends every entry, one per result among the first
      20, whole and in order: the messages joined by a blank line spell the
      entries joined by a blank line, behind one leading blank line. */
  lemma SuccessfulSearch(rs: seq<SearchResult>, profiles: string -> Option<string>)
    requires rs != []
    requires forall i :: 0 <= i < |rs| && i < MaxResults ==> Shapeable(rs[i], profiles)
    ensures exists entries ::
      && |entries| == (if |rs| < MaxResults then |rs| else MaxResults)
      && (forall i :: 0 <= i < |entries| ==> FormatEntry(rs[i], profiles) == Some(entries[i]))
      && JoinWith(ReplyTo(Answered(Some(rs)), profiles), Chunking.Sep)
         == Chunking.Sep + JoinWith(entries, Chunking.Sep)
  {
    SuccessfulSearchChunks(rs, profiles);
    var entries := ShapeResults(rs, profiles).value;
    assert FormatEntry(rs[|entries| - 1], profiles) == Some(entries[|entries| - 1]);
    Chunking.ChunksRejoin(entries);
  }

  /** Only the first message of a successful search starts with a blank
      line (or is empty, when the first entry alone is too long); every
      later one starts with an entry's icon. */
  lemma SuccessfulSearchStarts(rs: seq<SearchResult>, profiles: string -> Option<string>)
    requires rs != []
    requires forall i :: 0 <= i < |rs| && i < MaxResults ==> Shapeable(rs[i], profiles)
    ensures var msgs := ReplyTo(Answered(Some(rs)), profiles);
      && (msgs[0] == "" || Chunking.Sep <= msgs[0])
      && (forall i :: 1 <= i < |msgs| ==> PersonIcon <= msgs[i])
  {
    SuccessfulSearchChunks(rs, profiles);
    var entries := ShapeResults(rs, profiles).value;
    Chunking.ChunkStarts(entries);
    EntriesStartWithIcon(rs, entries, profiles);
    Chunking.LaterChunksStartWith(entries, PersonIcon);
  }

  /** Every formatted entry starts with the person icon. */
  lemma EntriesStartWithIcon(rs: seq<SearchResult>, entries: seq<string>, profiles: string -> Option<string>)
    requires |entries| <= |rs|
    requires forall i :: 0 <= i < |entries| ==> FormatEntry(rs[i], profiles) == Some(entries[i])
    ensures forall e :: e in entries ==> PersonIcon <= e
  {
    forall e | e in entries ensures PersonIcon <= e {
      var j :| 0 <= j < |entries| && entries[j] == e;
      assert FormatEntry(rs[j], profiles) == Some(e);
    }
  }
}
