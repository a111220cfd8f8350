/** Splitting the formatted search results into chat messages no longer than
    the transport allows (teamsBot.js, lines 116-126).

    The loop keeps a current chunk, starting from the empty string. For each
    entry it tests whether `current + "\n\n" + entry` would exceed 3800
    UTF-16 code units (JavaScript's `length`, see `JsLength`): if so the
    current chunk is emitted and the entry starts a new one, otherwise the
    entry is appended behind a "\n\n". A non-empty current chunk is emitted
    at the end. Because the first chunk starts from "" and
    not from the first entry, it carries a leading "\n\n"; if the very first
    entry does not fit, an empty chunk is emitted first.

    The model separates WHICH entries share a chunk (`Groups`, a list of
    entry groups) from HOW a chunk is spelled (`Render`); the method
    `ChunkMessages` is the loop on strings and is proved to produce the
    rendering of `Groups`. */
module Chunking {
  import opened Text

  /** The chunk-size limit, in UTF-16 code units (`JsLength`). */
  const Limit: nat := 3800

  /** The blank line placed between entries. */
  const Sep: string := "\n\n"

  /** The text of the first chunk: every entry preceded by a separator,
      because that chunk is grown from the empty string. */
  function Lead(g: seq<string>): string {
    if g == [] then "" else Lead(g[..|g| - 1]) + Sep + g[|g| - 1]
  }

  /** The text of a chunk holding the entries `g`; `first` tells whether it
      is the first chunk. Every later chunk starts with its first entry. */
  function Render(first: bool, g: seq<string>): string {
    if first then Lead(g) else JoinWith(g, Sep)
  }

  /** The texts of all chunks, in order. */
  function RenderAll(gs: seq<seq<string>>): (cs: seq<string>)
    ensures |cs| == |gs|
    ensures forall k :: 0 <= k < |gs| ==> cs[k] == Render(k == 0, gs[k])
  {
    seq(|gs|, k requires 0 <= k < |gs| => Render(k == 0, gs[k]))
  }

  /** The entries of all groups, in order. */
  function Flatten(gs: seq<seq<string>>): seq<string> {
    if gs == [] then [] else Flatten(gs[..|gs| - 1]) + gs[|gs| - 1]
  }

  /** Would appending `e` to the chunk holding `g` (the `k`-th chunk) take it
      past the limit? This is the test of line 119. */
  predicate Overflows(k: nat, g: seq<string>, e: string) {
    JsLength(Render(k == 0, g) + Sep + e) > Limit
  }

  /** The grouping the loop performs. `done` are the chunks already emitted,
      `cur` the entries of the current chunk, `es` the entries still to come. */
  function GroupFrom(done: seq<seq<string>>, cur: seq<string>, es: seq<string>): seq<seq<string>>
    decreases |es|
  {
    if es == [] then
      if Render(done == [], cur) == "" then done else done + [cur]
    else if Overflows(|done|, cur, es[0]) then
      GroupFrom(done + [cur], [es[0]], es[1..])
    else
      GroupFrom(done, cur + [es[0]], es[1..])
  }

  /** Which entries end up in which chunk: a well-shaped grouping (see
      `WellGrouped`). */
  function Groups(es: seq<string>): (gs: seq<seq<string>>)
    ensures WellGrouped(gs)
  {
    GroupFromWellGrouped([], [], es);
    GroupFrom([], [], es)
  }

  /** The `k`-th chunk `g` respects the limit, unless it is a later chunk
      holding one single entry, which is never cut. */
  predicate Fits(k: nat, g: seq<string>) {
    JsLength(Render(k == 0, g)) <= Limit || (k > 0 && |g| == 1)
  }

  /** The shape of a finished grouping: every chunk but the first holds at
      least one entry, every chunk fits (see `Fits`), and a chunk was closed
      only because the first entry of the next one would not fit into it. */
  ghost predicate WellGrouped(gs: seq<seq<string>>) {
    && (forall k :: 1 <= k < |gs| ==> gs[k] != [])
    && (forall k :: 0 <= k < |gs| ==> Fits(k, gs[k]))
    && (forall k :: 1 <= k < |gs| ==> Overflows(k - 1, gs[k - 1], gs[k][0]))
  }

  /** The loop's state invariant: the emitted chunks are well grouped and
      the current chunk could be closed as the next one. */
  ghost predicate GoodState(done: seq<seq<string>>, cur: seq<string>) {
    && WellGrouped(done)
    && (done != [] ==> cur != [] && Overflows(|done| - 1, done[|done| - 1], cur[0]))
    && Fits(|done|, cur)
  }

  /** Appending an entry to a chunk appends a separator and the entry to its
      text (a later chunk is never empty, so it has a first entry to follow). */
  lemma RenderAppend(first: bool, g: seq<string>, e: string)
    requires first || g != []
    ensures Render(first, g + [e]) == Render(first, g) + Sep + e
  {
    assert (g + [e])[..|g + [e]| - 1] == g;
  }

  lemma {:induction false} LeadConcat(a: seq<string>, b: seq<string>)
    ensures Lead(a + b) == Lead(a) + Lead(b)
    decreases |b|
  {
    if b == [] {
      assert a + b == a;
    } else {
      var b' := b[..|b| - 1];
      assert (a + b)[..|a + b| - 1] == a + b';
      LeadConcat(a, b');
    }
  }

  /** The first chunk's text is the join of its entries with one more
      separator in front. */
  lemma {:induction false} LeadIsSepJoin(g: seq<string>)
    requires g != []
    ensures Lead(g) == Sep + JoinWith(g, Sep)
    decreases |g|
  {
    var init, last := g[..|g| - 1], g[|g| - 1];
    if |g| > 1 {
      LeadIsSepJoin(init);
      assert Lead(g) == Lead(init) + Sep + last;
      assert JoinWith(g, Sep) == JoinWith(init, Sep) + Sep + last;
      assert Lead(init) + Sep + last == Sep + (JoinWith(init, Sep) + Sep + last);
    } else {
      assert init == [];
    }
  }

  lemma {:induction false} FlattenContains(gs: seq<seq<string>>, k: int, e: string)
    requires 0 <= k < |gs| && e in gs[k]
    ensures e in Flatten(gs)
    decreases |gs|
  {
    if k < |gs| - 1 {
      assert gs[..|gs| - 1][k] == gs[k];
      FlattenContains(gs[..|gs| - 1], k, e);
    }
  }

  lemma FlattenSnoc(gs: seq<seq<string>>, g: seq<string>)
    ensures Flatten(gs + [g]) == Flatten(gs) + g
  {
    assert (gs + [g])[..|gs|] == gs;
  }

  /** Moving the first of the entries still to come to the current chunk,
      or to a new one, keeps the concatenation. */
  lemma MoveFirst<T>(a: seq<T>, b: seq<T>, es: seq<T>)
    requires es != []
    ensures a + (b + [es[0]]) + es[1..] == a + b + es
    ensures a + b + [es[0]] + es[1..] == a + b + es
  {
    assert [es[0]] + es[1..] == es;
  }

  /** Closing the current chunk keeps the emitted chunks well grouped, and
      an entry that did not fit into it starts a good new state. */
  lemma CloseChunk(done: seq<seq<string>>, cur: seq<string>, e: string)
    requires GoodState(done, cur)
    ensures WellGrouped(done + [cur])
    ensures Overflows(|done|, cur, e) ==> GoodState(done + [cur], [e])
  {
    var gs := done + [cur];
    assert forall k :: 0 <= k < |done| ==> gs[k] == done[k];
    assert gs[|done|] == cur;
    forall k | 0 <= k < |gs| ensures Fits(k, gs[k]) {
      if k < |done| {
        assert Fits(k, done[k]);
      }
    }
    forall k | 1 <= k < |gs| ensures Overflows(k - 1, gs[k - 1], gs[k][0]) {
      if k < |done| {
        assert Overflows(k - 1, done[k - 1], done[k][0]);
      }
    }
  }

  /** Appending an entry that fits keeps the state good. */
  lemma ExtendChunk(done: seq<seq<string>>, cur: seq<string>, e: string)
    requires GoodState(done, cur) && !Overflows(|done|, cur, e)
    ensures GoodState(done, cur + [e])
  {
    RenderAppend(done == [], cur, e);
    if done != [] {
      assert (cur + [e])[0] == cur[0];
    }
  }

  /** Every step of the loop keeps `GoodState`, so the finished grouping is
      well grouped. */
  lemma {:induction false} GroupFromWellGrouped(done: seq<seq<string>>, cur: seq<string>, es: seq<string>)
    requires GoodState(done, cur)
    ensures WellGrouped(GroupFrom(done, cur, es))
    decreases |es|
  {
    if es == [] {
      if Render(done == [], cur) != "" {
        CloseChunk(done, cur, "");
      }
    } else if Overflows(|done|, cur, es[0]) {
      CloseChunk(done, cur, es[0]);
      GroupFromWellGrouped(done + [cur], [es[0]], es[1..]);
    } else {
      ExtendChunk(done, cur, es[0]);
      GroupFromWellGrouped(done, cur + [es[0]], es[1..]);
    }
  }

  /** What the grouping from a loop state keeps of the entries: every one,
      once and in order, except a final empty entry that had to start a
      chunk of its own, or, at the end, a current chunk whose text is "". */
  ghost predicate KeepsEntries(done: seq<seq<string>>, cur: seq<string>, es: seq<string>) {
    var all := Flatten(done) + cur + es;
    var f := Flatten(GroupFrom(done, cur, es));
    || f == all
    || (f + [""] == all && es != [] && es[|es| - 1] == "")
    || (es == [] && f + cur == all && Render(done == [], cur) == "")
  }

  /** Every entry ends up in exactly one chunk, in order; the only entry that
      can be lost is a final empty entry that had to start a chunk of its own,
      which then renders as "" and is not emitted. */
  lemma {:induction false} GroupFromFlatten(done: seq<seq<string>>, cur: seq<string>, es: seq<string>)
    requires done != [] ==> cur != []
    ensures KeepsEntries(done, cur, es)
    decreases |es|, 1
  {
    if es == [] {
    } else if Overflows(|done|, cur, es[0]) {
      FlattenAfterClose(done, cur, es);
    } else {
      FlattenAfterExtend(done, cur, es);
    }
  }

  /** The step of `GroupFromFlatten` that closes the current chunk. */
  lemma {:induction false} FlattenAfterClose(done: seq<seq<string>>, cur: seq<string>, es: seq<string>)
    requires done != [] ==> cur != []
    requires es != [] && Overflows(|done|, cur, es[0])
    ensures KeepsEntries(done, cur, es)
    decreases |es|, 0
  {
    var gs := done + [cur];
    FlattenSnoc(done, cur);
    MoveFirst(Flatten(done), cur, es);
    assert GroupFrom(done, cur, es) == GroupFrom(gs, [es[0]], es[1..]);
    GroupFromFlatten(gs, [es[0]], es[1..]);
    if |es| == 1 && Render(false, [es[0]]) == "" {
      assert es[0] == "";
    }
  }

  /** The step of `GroupFromFlatten` that appends to the current chunk. */
  lemma {:induction false} FlattenAfterExtend(done: seq<seq<string>>, cur: seq<string>, es: seq<string>)
    requires done != [] ==> cur != []
    requires es != [] && !Overflows(|done|, cur, es[0])
    ensures KeepsEntries(done, cur, es)
    decreases |es|, 0
  {
    assert GroupFrom(done, cur, es) == GroupFrom(done, cur + [es[0]], es[1..]);
    GroupFromFlatten(done, cur + [es[0]], es[1..]);
    MoveFirst(Flatten(done), cur, es);
    if |es| == 1 {
      RenderAppend(done == [], cur, es[0]);
    }
  }

  /** The loop never takes back an emitted chunk, and the current chunk only
      grows until it is emitted; a current chunk with non-empty text is
      emitted eventually. */
  lemma {:induction false} GroupFromKeeps(done: seq<seq<string>>, cur: seq<string>, es: seq<string>)
    ensures var gs := GroupFrom(done, cur, es);
      && |done| <= |gs| && gs[..|done|] == done
      && (|done| < |gs| ==> cur <= gs[|done|])
      && (Render(done == [], cur) != "" ==> |done| < |gs|)
    decreases |es|
  {
    var gs := GroupFrom(done, cur, es);
    if es == [] {
      assert (done + [cur])[..|done|] == done;
    } else if Overflows(|done|, cur, es[0]) {
      GroupFromKeeps(done + [cur], [es[0]], es[1..]);
      assert gs[..|done| + 1][..|done|] == gs[..|done|];
      assert (done + [cur])[..|done|] == done;
    } else {
      GroupFromKeeps(done, cur + [es[0]], es[1..]);
      if done == [] {
        RenderAppend(true, cur, es[0]);
      }
    }
  }

  /** What `Groups` promises: no entries, no chunks; a well-shaped grouping
      that keeps every entry once and in order (a final empty entry that
      starts its own chunk excepted); and an empty first chunk exactly when
      the first entry is longer than `Limit - |Sep|` code units. */
  lemma GroupsSpec(es: seq<string>)
    ensures es == [] <==> Groups(es) == []
    ensures WellGrouped(Groups(es))
    ensures Flatten(Groups(es)) == es
         || (Flatten(Groups(es)) + [""] == es && es[|es| - 1] == "")
    ensures es != [] ==> (Groups(es)[0] == [] <==> JsLength(es[0]) + |Sep| > Limit)
  {
    GroupFromWellGrouped([], [], es);
    GroupFromFlatten([], [], es);
    assert Flatten([]) == [];
    if es != [] {
      FirstGroup(es);
    }
  }

  /** The first group is empty exactly when the first entry does not fit
      behind the leading separator. */
  lemma FirstGroup(es: seq<string>)
    requires es != []
    ensures Groups(es) != []
    ensures Groups(es)[0] == [] <==> JsLength(es[0]) + |Sep| > Limit
  {
    assert Render(true, []) == "";
    assert Overflows(0, [], es[0]) <==> JsLength(es[0]) + |Sep| > Limit by {
      assert "" + Sep + es[0] == Sep + es[0];
      JsLengthConcat(Sep, es[0]);
      JsLengthBmp(Sep);
    }
    if Overflows(0, [], es[0]) {
      var none: seq<seq<string>> := [];
      assert Groups(es) == GroupFrom(none + [[]], [es[0]], es[1..]);
      assert none + [[]] == [[]];
      GroupFromKeeps([[]], [es[0]], es[1..]);
    } else {
      var empty: seq<string> := [];
      assert empty + [es[0]] == [es[0]];
      assert Groups(es) == GroupFrom([], [es[0]], es[1..]);
      assert Render(true, [es[0]]) == Lead([]) + Sep + es[0];
      GroupFromKeeps([], [es[0]], es[1..]);
    }
  }

  /** Joining the emitted chunks with the separator gives back the entries
      joined with the separator, plus the first chunk's leading one. */
  lemma {:induction false} JoinRenderAll(gs: seq<seq<string>>)
    requires gs != []
    requires forall k :: 1 <= k < |gs| ==> gs[k] != []
    ensures JoinWith(RenderAll(gs), Sep) == Lead(Flatten(gs))
    decreases |gs|
  {
    var n := |gs|;
    if n == 1 {
      assert gs == [gs[0]];
      JoinRenderAllOne(gs[0]);
    } else {
      var p := gs[..n - 1];
      JoinRenderAll(p);
      SplitLast(gs);
      JoinRenderAllSnoc(p, gs[n - 1]);
    }
  }

  /** `JoinRenderAll` for a single chunk. */
  lemma JoinRenderAllOne(g: seq<string>)
    ensures JoinWith(RenderAll([g]), Sep) == Lead(Flatten([g]))
  {
    assert [g][..0] == [];
    assert Flatten([g]) == g;
    assert RenderAll([g]) == [Lead(g)];
  }

  /** The step of `JoinRenderAll` that emits one more, later, chunk. */
  lemma JoinRenderAllSnoc(p: seq<seq<string>>, g: seq<string>)
    requires p != [] && g != []
    requires JoinWith(RenderAll(p), Sep) == Lead(Flatten(p))
    ensures JoinWith(RenderAll(p + [g]), Sep) == Lead(Flatten(p + [g]))
  {
    var cs := RenderAll(p);
    RenderAllAppend(p, g);
    JoinSnoc(cs, Render(false, g), Sep);
    assert JoinWith(RenderAll(p + [g]), Sep) == Lead(Flatten(p)) + Sep + JoinWith(g, Sep);
    LeadIsSepJoin(g);
    LeadConcat(Flatten(p), g);
    FlattenSnoc(p, g);
  }

  /** No entries, no chunks. A chunk over the limit is a single entry that
      opened a later chunk. */
  lemma ChunkBounds(entries: seq<string>)
    ensures var chunks := RenderAll(Groups(entries));
      && (entries == [] <==> chunks == [])
      && (forall i :: 0 <= i < |chunks| ==> JsLength(chunks[i]) <= Limit || (i > 0 && chunks[i] in entries))
  {
    GroupsSpec(entries);
    var gs := Groups(entries);
    var chunks := RenderAll(gs);
    forall i | 0 <= i < |chunks| && JsLength(chunks[i]) > Limit
      ensures i > 0 && chunks[i] in entries
    {
      assert Fits(i, gs[i]);
      assert gs[i] == [gs[i][0]];
      FlattenContains(gs, i, gs[i][0]);
    }
  }

  /** `c` starts with one of the entries. */
  ghost predicate StartsWithEntry(entries: seq<string>, c: string) {
    exists e :: e in entries && e <= c
  }

  /** How chunks begin: the first chunk is empty exactly when the first
      entry is longer than `Limit - |Sep|` code units, and otherwise starts
      with the separator; every later chunk starts with one of the entries. */
  lemma ChunkStarts(entries: seq<string>)
    ensures var chunks := RenderAll(Groups(entries));
      && (entries != [] ==> |chunks| > 0 && (chunks[0] == "" <==> JsLength(entries[0]) + |Sep| > Limit))
      && (entries != [] ==> |chunks| > 0 && (chunks[0] != "" ==> Sep <= chunks[0]))
      && (forall i :: 1 <= i < |chunks| ==> StartsWithEntry(entries, chunks[i]))
  {
    GroupsSpec(entries);
    var gs := Groups(entries);
    var chunks := RenderAll(gs);
    forall i | 1 <= i < |chunks|
      ensures StartsWithEntry(entries, chunks[i])
    {
      var e := gs[i][0];
      assert chunks[i] == JoinWith(gs[i], Sep);
      FlattenContains(gs, i, e);
      assert e in entries;
    }
    if entries != [] {
      assert chunks[0] == Lead(gs[0]);
      if gs[0] != [] {
        LeadIsSepJoin(gs[0]);
      }
    }
  }

  /** When every entry starts with `p`, so does every chunk after the
      first. */
  lemma LaterChunksStartWith(entries: seq<string>, p: string)
    requires forall e :: e in entries ==> p <= e
    ensures var chunks := RenderAll(Groups(entries));
      forall i :: 1 <= i < |chunks| ==> p <= chunks[i]
  {
    ChunkStarts(entries);
    var chunks := RenderAll(Groups(entries));
    forall i | 1 <= i < |chunks| ensures p <= chunks[i] {
      assert StartsWithEntry(entries, chunks[i]);
      var e :| e in entries && e <= chunks[i];
      assert p <= e;
    }
  }

  /** Joined with the separator, the chunks spell the entries joined with
      the separator, behind the first chunk's leading separator: every entry
      is sent once, whole and in order. */
  lemma ChunksRejoin(entries: seq<string>)
    requires entries != [] && entries[|entries| - 1] != ""
    ensures JoinWith(RenderAll(Groups(entries)), Sep) == Sep + JoinWith(entries, Sep)
  {
    GroupsSpec(entries);
    JoinRenderAll(Groups(entries));
    LeadIsSepJoin(entries);
  }

  /** The promises of `ChunkBounds`, `ChunkStarts` and `ChunksRejoin`,
      stated of the chunk texts themselves. */
  lemma ChunkFacts(entries: seq<string>, chunks: seq<string>)
    requires chunks == RenderAll(Groups(entries))
    ensures entries == [] <==> chunks == []
    ensures forall i :: 0 <= i < |chunks| ==> JsLength(chunks[i]) <= Limit || (i > 0 && chunks[i] in entries)
    ensures entries != [] ==> (chunks[0] == "" <==> JsLength(entries[0]) + |Sep| > Limit)
    ensures entries != [] && chunks[0] != "" ==> Sep <= chunks[0]
    ensures forall i :: 1 <= i < |chunks| ==> StartsWithEntry(entries, chunks[i])
    ensures entries != [] && entries[|entries| - 1] != "" ==>
              JoinWith(chunks, Sep) == Sep + JoinWith(entries, Sep)
  {
    ChunkBounds(entries);
    ChunkStarts(entries);
    if entries != [] && entries[|entries| - 1] != "" {
      ChunksRejoin(entries);
    }
  }

  /** Emitting a chunk appends its text to the texts emitted so far. */
  lemma RenderAllAppend(gs: seq<seq<string>>, g: seq<string>)
    ensures RenderAll(gs + [g]) == RenderAll(gs) + [Render(gs == [], g)]
  {
    var l := RenderAll(gs + [g]);
    var r := RenderAll(gs) + [Render(gs == [], g)];
    assert |l| == |r|;
    forall k | 0 <= k < |l| ensures l[k] == r[k] {
      if k < |gs| {
        assert (gs + [g])[k] == gs[k];
      }
    }
  }

  /** The loop of lines 116-126. */
  method ChunkMessages(entries: seq<string>) returns (chunks: seq<string>)
    ensures chunks == RenderAll(Groups(entries))
    ensures entries == [] <==> chunks == []
    ensures forall i :: 0 <= i < |chunks| ==> JsLength(chunks[i]) <= Limit || (i > 0 && chunks[i] in entries)
    ensures entries != [] ==> (chunks[0] == "" <==> JsLength(entries[0]) + |Sep| > Limit)
    ensures entries != [] && chunks[0] != "" ==> Sep <= chunks[0]
    ensures forall i :: 1 <= i < |chunks| ==> StartsWithEntry(entries, chunks[i])
    ensures entries != [] && entries[|entries| - 1] != "" ==>
              JoinWith(chunks, Sep) == Sep + JoinWith(entries, Sep)
  {
    chunks := [];
    var current := "";
    ghost var done: seq<seq<string>> := [];
    ghost var cur: seq<string> := [];
    for i := 0 to |entries|
      invariant chunks == RenderAll(done)
      invariant done != [] ==> cur != []
      invariant current == Render(done == [], cur)
      invariant GroupFrom(done, cur, entries[i..]) == Groups(entries)
    {
      var entry := entries[i];
      assert entries[i..][1..] == entries[i + 1..];
      if JsLength(current + Sep + entry) > Limit {
        RenderAllAppend(done, cur);
        chunks := chunks + [current];
        done := done + [cur];
        current := entry;
        cur := [entry];
      } else {
        RenderAppend(done == [], cur, entry);
        current := current + Sep + entry;
        cur := cur + [entry];
      }
    }
    if current != "" {
      RenderAllAppend(done, cur);
      chunks := chunks + [current];
      done := done + [cur];
    }
    assert entries[|entries|..] == [];
    assert done == Groups(entries);
    ChunkFacts(entries, chunks);
  }
}
