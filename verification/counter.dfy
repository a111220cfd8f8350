/** The per-conversation counter of teamsBot.js: `/reset` (lines 19-22),
    `/count` (lines 25-28) and the echo handler (lines 152-156), as a state
    machine over the one field of conversation state these handlers use. */
module Counter {
  import opened Wrappers

  /** The conversation state as these handlers see it: `count` is absent
      until the first echo and after a reset. */
  datatype ConversationState = ConversationState(count: Option<nat>)

  /** The state after `deleteConversationState`: nothing stored. */
  const Cleared: ConversationState := ConversationState(None)

  /** The messages the three handlers react to. */
  datatype Command = Reset | Count | Echo(text: string)

  /** What a handler sends back. */
  datatype Reply = ResetDone | CountIs(n: nat) | Echoed(n: nat, text: string)

  const ResetMessage: string :=
    "\U{00E2}\U{015B}\U{2026} Conversation state has been reset."

  /** `state.conversation.count ?? 0`. */
  function CountOf(st: ConversationState): nat {
    st.count.GetOr(0)
  }

  /** One handler invocation: the next state and the reply. The counter
      moves as `Expected` says, only `/count` reports it, and an echo
      reports the count it stores. */
  function Step(st: ConversationState, cmd: Command): (r: (ConversationState, Reply))
    ensures CountOf(r.0) == Expected(CountOf(st), [cmd])
    ensures r.1.CountIs? <==> cmd.Count?
    ensures cmd.Echo? ==> r.1 == Echoed(CountOf(r.0), cmd.text)
  {
    assert [cmd][..0] == [];
    match cmd
    case Reset => (Cleared, ResetDone)
    case Count => (st, CountIs(CountOf(st)))
    case Echo(text) =>
      var n := CountOf(st) + 1;
      (ConversationState(Some(n)), Echoed(n, text))
  }

  /** A conversation: the commands handled one after another (the hosting
      framework serialises them), with the final state and every reply. */
  function Run(st: ConversationState, cmds: seq<Command>): (ConversationState, seq<Reply>)
    decreases |cmds|
  {
    if cmds == [] then (st, [])
    else
      var (st1, reply) := Step(st, cmds[0]);
      var (st2, replies) := Run(st1, cmds[1..]);
      (st2, [reply] + replies)
  }

  /** An independent account of the counter: starting from `c0`, it is the
      number of echoes since the last reset (plus `c0` when there was no
      reset), whatever `/count` queries are interleaved. */
  function Expected(c0: nat, cmds: seq<Command>): nat
    decreases |cmds|
  {
    if cmds == [] then c0
    else
      match cmds[|cmds| - 1]
      case Reset => 0
      case Count => Expected(c0, cmds[..|cmds| - 1])
      case Echo(_) => Expected(c0, cmds[..|cmds| - 1]) + 1
  }

  lemma {:induction false} RunAppend(st: ConversationState, cmds: seq<Command>, cmd: Command)
    ensures Run(st, cmds + [cmd]).0 == Step(Run(st, cmds).0, cmd).0
    ensures Run(st, cmds + [cmd]).1 == Run(st, cmds).1 + [Step(Run(st, cmds).0, cmd).1]
    decreases |cmds|
  {
    if cmds == [] {
      assert [] + [cmd] == [cmd];
    } else {
      assert (cmds + [cmd])[1..] == cmds[1..] + [cmd];
      RunAppend(Step(st, cmds[0]).0, cmds[1..], cmd);
    }
  }

  /** The counter the handlers keep is the one `Expected` describes. */
  lemma {:induction false} RunCount(st: ConversationState, cmds: seq<Command>)
    ensures CountOf(Run(st, cmds).0) == Expected(CountOf(st), cmds)
    decreases |cmds|
  {
    if cmds != [] {
      var prefix := cmds[..|cmds| - 1];
      assert prefix + [cmds[|cmds| - 1]] == cmds;
      RunAppend(st, prefix, cmds[|cmds| - 1]);
      RunCount(st, prefix);
    }
  }

  /** The commands without the `/count` queries. */
  function WithoutCounts(cmds: seq<Command>): seq<Command> {
    if cmds == [] then []
    else if cmds[0].Count? then WithoutCounts(cmds[1..])
    else [cmds[0]] + WithoutCounts(cmds[1..])
  }

  /** The replies without those to `/count`. */
  function WithoutCountReplies(replies: seq<Reply>): seq<Reply> {
    if replies == [] then []
    else if replies[0].CountIs? then WithoutCountReplies(replies[1..])
    else [replies[0]] + WithoutCountReplies(replies[1..])
  }

  /** `/count` is read-only: deleting every `/count` from a conversation
      leaves the final state as it was and removes exactly the replies to
      the queries, every other reply staying as and where it was. */
  lemma {:induction false} CountsChangeNothing(st: ConversationState, cmds: seq<Command>)
    ensures Run(st, WithoutCounts(cmds)).0 == Run(st, cmds).0
    ensures Run(st, WithoutCounts(cmds)).1 == WithoutCountReplies(Run(st, cmds).1)
    decreases |cmds|
  {
    if cmds != [] {
      var st1 := Step(st, cmds[0]).0;
      CountsChangeNothing(st1, cmds[1..]);
      if !cmds[0].Count? {
        var rest := WithoutCounts(cmds[1..]);
        assert ([cmds[0]] + rest)[1..] == rest;
      }
    }
  }

  /** After `/reset`, `/count` reports 0, whatever the state was. */
  lemma ResetThenCount(st: ConversationState)
    ensures Run(st, [Reset, Count]).1 == [ResetDone, CountIs(0)]
  {
    assert [Reset, Count][1..] == [Count];
    assert [Count][1..] == [];
  }

  /** The echo commands for some message texts. */
  function Echoes(texts: seq<string>): (cmds: seq<Command>)
    ensures |cmds| == |texts|
    ensures forall i :: 0 <= i < |texts| ==> cmds[i] == Echo(texts[i])
  {
    seq(|texts|, i requires 0 <= i < |texts| => Echo(texts[i]))
  }

  /** Successive echoes report consecutive counts, each one more than the
      count before it, and leave the counter that many higher. */
  lemma {:induction false} EchoesCount(st: ConversationState, texts: seq<string>)
    ensures CountOf(Run(st, Echoes(texts)).0) == CountOf(st) + |texts|
    ensures Run(st, Echoes(texts)).1
         == seq(|texts|, i requires 0 <= i < |texts| => Echoed(CountOf(st) + i + 1, texts[i]))
    decreases |texts|
  {
    if texts != [] {
      var st1 := Step(st, Echo(texts[0])).0;
      assert Echoes(texts)[1..] == Echoes(texts[1..]);
      EchoesCount(st1, texts[1..]);
    }
  }

  /** Three echoes after a reset report 1, 2 and 3. */
  lemma ThreeEchoesAfterReset(st: ConversationState, a: string, b: string, c: string)
    ensures Run(st, [Reset, Echo(a), Echo(b), Echo(c)]).1
         == [ResetDone, Echoed(1, a), Echoed(2, b), Echoed(3, c)]
  {
    var cmds := [Reset, Echo(a), Echo(b), Echo(c)];
    assert cmds[1..] == Echoes([a, b, c]);
    EchoesCount(Cleared, [a, b, c]);
  }

  // ---------------------------------------------------------------------
  // Message texts

  /** The decimal digits of `n`, as a template literal prints a number. */
  function Decimal(n: nat): (s: string)
    ensures |s| >= 1 && forall k :: 0 <= k < |s| ==> '0' <= s[k] <= '9'
    ensures s[0] == '0' ==> n == 0
  {
    if n < 10 then [('0' as int + n) as char]
    else Decimal(n / 10) + [('0' as int + n % 10) as char]
  }

  /** The number a string of decimal digits denotes. */
  function DecimalValue(s: string): nat
    requires forall k :: 0 <= k < |s| ==> '0' <= s[k] <= '9'
  {
    if s == [] then 0
    else DecimalValue(s[..|s| - 1]) * 10 + (s[|s| - 1] as int - '0' as int)
  }

  /** Reading the printed count back gives the count. */
  lemma {:induction false} DecimalRoundTrip(n: nat)
    ensures DecimalValue(Decimal(n)) == n
  {
    if n >= 10 {
      var s := Decimal(n);
      assert s[..|s| - 1] == Decimal(n / 10);
      DecimalRoundTrip(n / 10);
    }
  }

  /** The text each handler sends. */
  function ReplyText(r: Reply): string {
    match r
    case ResetDone => ResetMessage
    case CountIs(n) => "The count is " + Decimal(n)
    case Echoed(n, text) => "[" + Decimal(n) + "] You said: " + text
  }
}
