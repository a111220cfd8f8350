/** The JavaScript string operations the bot relies on, written out character
    by character: the `\s` class, `trim`, ASCII case-insensitive matching,
    `indexOf`, `replace` with a string pattern, `join` and `split(/\s+/)`.
    A `char` is a Unicode scalar value; JavaScript's `s.length` counts UTF-16
    code units, which `JsLength` computes. */
module Text {
  import opened Wrappers

  /** JavaScript's `\s`: the WhiteSpace and LineTerminator characters of
      ECMAScript, which is also exactly what `String.prototype.trim` strips. */
  predicate IsSpace(c: char)
    ensures IsSpace(c) ==> Utf16Units(c) == 1
  {
    || c == '\t' || c == '\n' || c == '\U{000B}' || c == '\U{000C}' || c == '\r'
    || c == ' ' || c == '\U{00A0}' || c == '\U{1680}'
    || ('\U{2000}' <= c <= '\U{200A}')
    || c == '\U{2028}' || c == '\U{2029}' || c == '\U{202F}' || c == '\U{205F}'
    || c == '\U{3000}' || c == '\U{FEFF}'
  }

  /** How many UTF-16 code units JavaScript stores for `c`: two (a surrogate
      pair) outside the Basic Multilingual Plane, one inside it. */
  function Utf16Units(c: char): nat {
    if c as int >= 0x1_0000 then 2 else 1
  }

  /** JavaScript's `s.length`: the number of UTF-16 code units of `s`. */
  function JsLength(s: string): nat {
    if s == [] then 0 else JsLength(s[..|s| - 1]) + Utf16Units(s[|s| - 1])
  }

  /** The length of a concatenation is the sum of the lengths. */
  lemma {:induction false} JsLengthConcat(a: string, b: string)
    ensures JsLength(a + b) == JsLength(a) + JsLength(b)
    decreases |b|
  {
    if b == [] {
      assert a + b == a;
    } else {
      var b' := b[..|b| - 1];
      assert (a + b)[..|a + b| - 1] == a + b';
      JsLengthConcat(a, b');
    }
  }

  /** For text inside the Basic Multilingual Plane, `length` counts
      characters. */
  lemma {:induction false} JsLengthBmp(s: string)
    requires forall k :: 0 <= k < |s| ==> s[k] as int < 0x1_0000
    ensures JsLength(s) == |s|
    decreases |s|
  {
    if s != [] {
      JsLengthBmp(s[..|s| - 1]);
    }
  }

  /** Every character of `s[i..j]` is whitespace. */
  predicate SpacesBetween(s: string, i: int, j: int)
    requires 0 <= i <= j <= |s|
  {
    forall k :: i <= k < j ==> IsSpace(s[k])
  }

  predicate AllSpaces(s: string) {
    SpacesBetween(s, 0, |s|)
  }

  /** The number of leading whitespace characters of `s`. */
  function LeadingSpaces(s: string): (n: nat)
    ensures n <= |s| && SpacesBetween(s, 0, n)
    ensures n == |s| || !IsSpace(s[n])
  {
    if s != [] && IsSpace(s[0]) then 1 + LeadingSpaces(s[1..]) else 0
  }

  /** The index where the trailing whitespace of `s` begins. */
  function TrailingStart(s: string): (m: nat)
    ensures m <= |s| && SpacesBetween(s, m, |s|)
    ensures m == 0 || !IsSpace(s[m - 1])
  {
    if s != [] && IsSpace(s[|s| - 1]) then TrailingStart(s[..|s| - 1]) else |s|
  }

  /** `s` with its leading whitespace removed (what a greedy `^\s*` or `^\s+`
      consumes). */
  function SkipSpaces(s: string): (r: string)
    ensures r == s[LeadingSpaces(s)..]
    ensures r == [] || !IsSpace(r[0])
  {
    s[LeadingSpaces(s)..]
  }

  /** `s[i..j]` is what is left of `s` once whitespace is stripped from both
      ends: everything outside it is whitespace and it neither starts nor ends
      with whitespace. */
  predicate StripsTo(s: string, i: int, j: int) {
    && 0 <= i <= j <= |s|
    && SpacesBetween(s, 0, i)
    && SpacesBetween(s, j, |s|)
    && (i == j || (!IsSpace(s[i]) && !IsSpace(s[j - 1])))
  }

  /** `String.prototype.trim`. */
  function Trim(s: string): (r: string)
    ensures exists i, j :: StripsTo(s, i, j) && r == s[i..j]
    ensures r == [] <==> AllSpaces(s)
    ensures r == [] || (!IsSpace(r[0]) && !IsSpace(r[|r| - 1]))
  {
    var i := LeadingSpaces(s);
    var j := if i == |s| then i else TrailingStart(s);
    assert StripsTo(s, i, j);
    s[i..j]
  }

  /** The stripped slice is unique: any slice that fits the description of a
      trimmed `s` is the one `Trim` returns. */
  lemma TrimUnique(s: string, i: int, j: int)
    requires StripsTo(s, i, j)
    ensures Trim(s) == s[i..j]
  {
    var a := LeadingSpaces(s);
    if i < j {
      assert a == i;
      assert TrailingStart(s) == j;
    }
  }

  /** Dropping a prefix of the leading whitespace keeps the stripped slice,
      shifted. */
  lemma StripsToDrop(s: string, n: int, i: int, j: int)
    requires StripsTo(s, i, j) && 0 <= n <= i
    ensures StripsTo(s[n..], i - n, j - n)
  {
    var t := s[n..];
    assert forall k :: 0 <= k < |t| ==> t[k] == s[k + n];
  }

  /** The bounds `Trim` cuts at: the slice starts after the leading
      whitespace. */
  lemma TrimBounds(s: string) returns (i: nat, j: nat)
    ensures i == LeadingSpaces(s) && StripsTo(s, i, j) && Trim(s) == s[i..j]
  {
    i := LeadingSpaces(s);
    j := if i == |s| then i else TrailingStart(s);
    assert StripsTo(s, i, j);
    TrimUnique(s, i, j);
  }

  /** Removing leading whitespace first does not change what `Trim` keeps. */
  lemma TrimAfterSkip(s: string)
    ensures Trim(SkipSpaces(s)) == Trim(s)
  {
    var n, j := TrimBounds(s);
    TrimOfDrop(s, n, j);
  }

  /** Trimming after dropping whitespace that `Trim` would strip anyway. */
  lemma TrimOfDrop(s: string, n: int, j: int)
    requires StripsTo(s, n, j)
    ensures Trim(s[n..]) == s[n..j]
  {
    StripsToDrop(s, n, n, j);
    TrimUnique(s[n..], 0, j - n);
    DropThenTake(s, n, j);
  }

  lemma DropThenTake<T>(s: seq<T>, n: int, j: int)
    requires 0 <= n <= j <= |s|
    ensures s[n..][0..j - n] == s[n..j]
  {
  }

  /** ASCII case folding; a JavaScript `/i` regex without the `u` flag folds
      no non-ASCII character onto an ASCII letter, so for the ASCII patterns
      of the bot this is exactly its case-insensitive comparison. */
  function LowerAscii(c: char): (d: char)
    ensures 'A' <= c <= 'Z' ==> 'a' <= d <= 'z' && d as int - c as int == 32
    ensures !('A' <= c <= 'Z') ==> d == c
  {
    if 'A' <= c <= 'Z' then (c as int + 32) as char else c
  }

  predicate EqualsIgnoreCase(a: string, b: string) {
    |a| == |b| && forall k :: 0 <= k < |a| ==> LowerAscii(a[k]) == LowerAscii(b[k])
  }

  predicate StartsWithIgnoreCase(s: string, p: string) {
    |p| <= |s| && EqualsIgnoreCase(s[..|p|], p)
  }

  predicate OccursAt(s: string, pat: string, k: int) {
    0 <= k && k + |pat| <= |s| && s[k..k + |pat|] == pat
  }

  /** First index at or after `from` where `pat` occurs. */
  function IndexOfFrom(s: string, pat: string, from: nat): (r: Option<nat>)
    ensures r.Some? ==> from <= r.value && OccursAt(s, pat, r.value)
    ensures r.Some? ==> forall k :: from <= k < r.value ==> !OccursAt(s, pat, k)
    ensures r.None? ==> forall k :: from <= k ==> !OccursAt(s, pat, k)
    decreases |s| - from
  {
    if from + |pat| > |s| then None
    else if s[from..from + |pat|] == pat then Some(from)
    else IndexOfFrom(s, pat, from + 1)
  }

  /** `String.prototype.indexOf`: the first occurrence of `pat` in `s`. */
  function IndexOf(s: string, pat: string): (r: Option<nat>)
    ensures r.Some? ==> OccursAt(s, pat, r.value)
    ensures r.Some? ==> forall k :: 0 <= k < r.value ==> !OccursAt(s, pat, k)
    ensures r.None? <==> forall k :: !OccursAt(s, pat, k)
  {
    IndexOfFrom(s, pat, 0)
  }

  /** `s.replace(pat, rep)` with a STRING pattern: only the first occurrence of
      `pat` is replaced. */
  function ReplaceFirst(s: string, pat: string, rep: string): (r: string)
    ensures IndexOf(s, pat).None? ==> r == s
    ensures IndexOf(s, pat).Some? ==> |r| == |s| - |pat| + |rep|
  {
    match IndexOf(s, pat)
    case None => s
    case Some(i) => s[..i] + rep + s[i + |pat|..]
  }

  /** A string in which `pat` does not occur is left unchanged. */
  lemma ReplaceAbsent(s: string, pat: string, rep: string)
    requires forall k :: !OccursAt(s, pat, k)
    ensures ReplaceFirst(s, pat, rep) == s
  {
  }

  /** `pre + pat + post`, where no occurrence of `pat` starts inside `pre`,
      becomes `pre + rep + post`: the leftmost occurrence is replaced,
      wherever it stands, and nothing after it is looked at. */
  lemma ReplaceLeftmost(pre: string, pat: string, post: string, rep: string)
    requires forall k :: 0 <= k < |pre| ==> !OccursAt(pre + pat + post, pat, k)
    ensures ReplaceFirst(pre + pat + post, pat, rep) == pre + rep + post
  {
    var s := pre + pat + post;
    var i := |pre|;
    var e := i + |pat|;
    assert s[i..e] == pat;
    assert IndexOf(s, pat) == Some(i) by {
      var r := IndexOf(s, pat);
      assert OccursAt(s, pat, i);
      assert r.Some?;
      assert !(r.value < i);
    }
    assert s[..i] == pre;
    assert s[e..] == post;
  }

  /** `xs.join(sep)`. */
  function JoinWith(xs: seq<string>, sep: string): (r: string)
    ensures xs != [] ==> xs[0] <= r
  {
    if |xs| == 0 then ""
    else if |xs| == 1 then xs[0]
    else JoinWith(xs[..|xs| - 1], sep) + sep + xs[|xs| - 1]
  }

  /** Taking one more element appends it. */
  lemma TakeOneMore<T>(s: seq<T>, n: nat)
    requires n < |s|
    ensures s[..n + 1] == s[..n] + [s[n]]
  {
  }

  /** A non-empty sequence is its front followed by its last element. */
  lemma SplitLast<T>(s: seq<T>)
    requires s != []
    ensures s[..|s| - 1] + [s[|s| - 1]] == s
  {
  }

  /** A prefix of a prefix is a prefix. */
  lemma PrefixThrough<T>(a: seq<T>, w: seq<T>, c: seq<T>)
    requires a + w <= c
    ensures a <= c
  {
    assert (a + w)[..|a|] == a;
  }

  /** Joining one more piece appends the separator and the piece. */
  lemma JoinSnoc(xs: seq<string>, x: string, sep: string)
    requires xs != []
    ensures JoinWith(xs + [x], sep) == JoinWith(xs, sep) + sep + x
  {
    assert (xs + [x])[..|xs|] == xs;
  }

  /** How many times `c` occurs in `s`. */
  function Occurrences(s: string, c: char): nat {
    if s == [] then 0
    else Occurrences(s[..|s| - 1], c) + (if s[|s| - 1] == c then 1 else 0)
  }

  lemma {:induction false} OccurrencesConcat(a: string, b: string, c: char)
    ensures Occurrences(a + b, c) == Occurrences(a, c) + Occurrences(b, c)
    decreases |b|
  {
    if b == [] {
      assert a + b == a;
    } else {
      var b' := b[..|b| - 1];
      assert (a + b)[..|a + b| - 1] == a + b';
      OccurrencesConcat(a, b', c);
    }
  }

  lemma {:induction false} OccurrencesNone(s: string, c: char)
    requires forall k :: 0 <= k < |s| ==> s[k] != c
    ensures Occurrences(s, c) == 0
    decreases |s|
  {
    if s != [] {
      OccurrencesNone(s[..|s| - 1], c);
    }
  }

  /** Pieces without whitespace joined by single spaces: the join holds one
      space fewer than there are pieces. */
  lemma {:induction false} JoinSpaceCount(xs: seq<string>)
    requires xs != []
    requires forall t :: t in xs ==> forall k :: 0 <= k < |t| ==> !IsSpace(t[k])
    ensures Occurrences(JoinWith(xs, " "), ' ') == |xs| - 1
    decreases |xs|
  {
    var last := xs[|xs| - 1];
    assert last in xs;
    OccurrencesNone(last, ' ');
    if |xs| > 1 {
      var init := xs[..|xs| - 1];
      assert forall t :: t in init ==> t in xs;
      JoinSpaceCount(init);
      OccurrencesConcat(JoinWith(init, " ") + " ", last, ' ');
      OccurrencesConcat(JoinWith(init, " "), " ", ' ');
      assert Occurrences(" ", ' ') == 1 by {
        assert " "[..0] == "";
      }
    }
  }

  /** `s.split(/\s+/)`: the pieces between maximal runs of whitespace. A
      leading (trailing) run yields an empty first (last) piece, and the empty
      string splits into one empty piece. */
  function SplitOnSpaces(s: string): (toks: seq<string>)
    ensures |toks| >= 1
    ensures forall t :: t in toks ==> forall k :: 0 <= k < |t| ==> !IsSpace(t[k])
    decreases |s|
  {
    if s == [] then [""]
    else if IsSpace(s[0]) then [""] + SplitOnSpaces(s[LeadingSpaces(s)..])
    else
      var rest := SplitOnSpaces(s[1..]);
      [[s[0]] + rest[0]] + rest[1..]
  }

  /** Only the first and the last piece of a split can be empty: every
      piece in between lies between two whitespace runs, and the first is
      non-empty when `s` starts with a non-space. */
  lemma {:induction false} SplitPiecesNonEmpty(s: string)
    ensures s != [] && !IsSpace(s[0]) ==> SplitOnSpaces(s)[0] != []
    ensures forall i :: 0 < i < |SplitOnSpaces(s)| - 1 ==> SplitOnSpaces(s)[i] != []
    decreases |s|
  {
    if s == [] {
    } else if IsSpace(s[0]) {
      var rest := s[LeadingSpaces(s)..];
      var ts := SplitOnSpaces(rest);
      SplitPiecesNonEmpty(rest);
      var toks := SplitOnSpaces(s);
      assert toks == [""] + ts;
      forall i | 0 < i < |toks| - 1 ensures toks[i] != [] {
        assert toks[i] == ts[i - 1];
        if i == 1 {
          assert rest != [] && !IsSpace(rest[0]);
        }
      }
    } else {
      var ts := SplitOnSpaces(s[1..]);
      SplitPiecesNonEmpty(s[1..]);
      var toks := SplitOnSpaces(s);
      assert toks == [[s[0]] + ts[0]] + ts[1..];
      assert |toks| == |ts|;
      forall i | 0 < i < |toks| - 1 ensures toks[i] != [] {
        assert toks[i] == ts[i];
      }
    }
  }

  /** `s` with every maximal run of whitespace replaced by one space. */
  function CollapseSpaces(s: string): string
    decreases |s|
  {
    if s == [] then ""
    else if IsSpace(s[0]) then " " + CollapseSpaces(s[LeadingSpaces(s)..])
    else [s[0]] + CollapseSpaces(s[1..])
  }

  /** Joining is associative with the separator in front: putting `x` before
      a non-empty list adds `x + sep` in front of its join. */
  lemma {:induction false} JoinCons(x: string, xs: seq<string>, sep: string)
    requires xs != []
    ensures JoinWith([x] + xs, sep) == x + sep + JoinWith(xs, sep)
    decreases |xs|
  {
    var ys := [x] + xs;
    if |xs| > 1 {
      assert ys[..|ys| - 1] == [x] + xs[..|xs| - 1];
      JoinCons(x, xs[..|xs| - 1], sep);
    }
  }

  /** Joining the first `m` pieces gives a prefix of joining them all. */
  lemma {:induction false} JoinPrefix(xs: seq<string>, m: nat, sep: string)
    requires 1 <= m <= |xs|
    ensures JoinWith(xs[..m], sep) <= JoinWith(xs, sep)
    decreases |xs|
  {
    if m < |xs| {
      assert xs[..|xs| - 1][..m] == xs[..m];
      JoinPrefix(xs[..|xs| - 1], m, sep);
    } else {
      assert xs[..m] == xs;
    }
  }

  /** The join of the first `n` of more pieces, followed by the separator,
      starts the join of them all. */
  lemma JoinPrefixSep(words: seq<string>, n: nat, sep: string)
    requires 1 <= n < |words|
    ensures JoinWith(words[..n], sep) + sep <= JoinWith(words, sep)
  {
    var kept := words[..n];
    JoinPrefix(words, n + 1, sep);
    TakeOneMore(words, n);
    JoinSnoc(kept, words[n], sep);
    PrefixThrough(JoinWith(kept, sep) + sep, words[n], JoinWith(words, sep));
  }

  /** Gluing a character to the front of the first piece glues it to the
      front of the join. */
  lemma JoinPrependChar(c: char, xs: seq<string>, sep: string)
    requires xs != []
    ensures JoinWith([[c] + xs[0]] + xs[1..], sep) == [c] + JoinWith(xs, sep)
  {
    if |xs| > 1 {
      JoinCons([c] + xs[0], xs[1..], sep);
      JoinCons(xs[0], xs[1..], sep);
      assert [xs[0]] + xs[1..] == xs;
      assert ([c] + xs[0]) + sep + JoinWith(xs[1..], sep)
          == [c] + (xs[0] + sep + JoinWith(xs[1..], sep));
    } else {
      assert [[c] + xs[0]] + xs[1..] == [[c] + xs[0]];
    }
  }

  /** `split(/\s+/)` followed by `join(" ")` collapses every whitespace run of
      `s` to one space and keeps every other character, in order. */
  lemma {:induction false} SplitJoinCollapses(s: string)
    ensures JoinWith(SplitOnSpaces(s), " ") == CollapseSpaces(s)
    decreases |s|, 1
  {
    if s == [] {
    } else if IsSpace(s[0]) {
      SplitJoinAtSpace(s);
    } else {
      SplitJoinAtWord(s);
    }
  }

  /** The step of `SplitJoinCollapses` for a leading whitespace run: an
      empty first piece, joined by one space to the pieces of the rest. */
  lemma {:induction false} SplitJoinAtSpace(s: string)
    requires s != [] && IsSpace(s[0])
    ensures JoinWith(SplitOnSpaces(s), " ") == CollapseSpaces(s)
    decreases |s|, 0
  {
    var rest := s[LeadingSpaces(s)..];
    var toks := SplitOnSpaces(rest);
    SplitJoinCollapses(rest);
    JoinAfterEmpty(toks, " ");
    assert SplitOnSpaces(s) == [""] + toks;
    assert CollapseSpaces(s) == " " + CollapseSpaces(rest);
  }

  /** An empty first piece leaves just the separator in front. */
  lemma JoinAfterEmpty(xs: seq<string>, sep: string)
    requires xs != []
    ensures JoinWith([""] + xs, sep) == sep + JoinWith(xs, sep)
  {
    JoinCons("", xs, sep);
    assert "" + sep == sep;
  }

  /** The step of `SplitJoinCollapses` for a leading non-space character: it
      is glued to the front of the first piece. */
  lemma {:induction false} SplitJoinAtWord(s: string)
    requires s != [] && !IsSpace(s[0])
    ensures JoinWith(SplitOnSpaces(s), " ") == CollapseSpaces(s)
    decreases |s|, 0
  {
    var toks := SplitOnSpaces(s[1..]);
    assert SplitOnSpaces(s) == [[s[0]] + toks[0]] + toks[1..];
    assert CollapseSpaces(s) == [s[0]] + CollapseSpaces(s[1..]);
    SplitJoinCollapses(s[1..]);
    JoinPrependChar(s[0], toks, " ");
  }
}
