/**
 `complete_with_tools` of `llm/client.py`: the tool-calling conversation. The model service and the
 tools are arbitrary; the transcript sent with every request is always one the chat API accepts.
 */
module ToolLoop {
  import opened Wrappers
  import Sanitize

  datatype ToolCall = ToolCall(id: string, name: string, arguments: string)

  datatype Message =
    | System(content: string)
    | User(content: string)
    | Assistant(content: string, calls: seq<ToolCall>)
    | Tool(callId: string, content: string)

  /** `resp.choices[0].message`; empty content stands for None as well. */
  datatype Choice = Choice(content: string, calls: seq<ToolCall>)

  /** What one request comes back with. `choice` is missing when the response has no choices. */
  datatype Reply =
    | Timeout(error: string)
    | Failure(error: string)
    | Answer(usage: Option<(nat, nat)>, choice: Option<Choice>)

  /** One handler run; `Unserialisable` is a result that `json.dumps` refuses. */
  datatype ToolRun = Returns(json: string) | Raises(error: string) | Unserialisable(error: string)

  /**
   The surroundings: the reply to the k-th request, the outcome of the k-th handler run, the JSON
   parser (`None` is its decode error), and the names in `dispatch`.
   */
  datatype Env = Env(
    reply: nat -> Reply,
    run: (nat, string, string) -> ToolRun,
    parse: string -> Option<string>,
    known: set<string>)

  datatype Request = Request(messages: seq<Message>, offersTools: bool)

  datatype CallStatus = Ok | TimedOut | Errored
  datatype LlmResult = LlmResult(status: CallStatus, text: string, error: string, inputTokens: nat, outputTokens: nat)

  // ---------------------------------------------------------------------------------------
  // Transcripts the API accepts
  // ---------------------------------------------------------------------------------------

  function Ids(calls: seq<ToolCall>): seq<string> {
    if calls == [] then [] else [calls[0].id] + Ids(calls[1..])
  }

  /**
   Reads a conversation left to right: `pending` are the calls still to be answered, in order. An
   assistant turn with calls may only come when none is pending, a tool message must answer the next.
   */
  predicate Accepts(pending: seq<string>, ms: seq<Message>)
    decreases |ms|
  {
    if ms == [] then pending == []
    else
      match ms[0]
      case Assistant(_, calls) => pending == [] && calls != [] && Accepts(Ids(calls), ms[1..])
      case Tool(id, _) => pending != [] && pending[0] == id && Accepts(pending[1..], ms[1..])
      case _ => false
  }

  predicate WellFormed(system: string, user: string, ms: seq<Message>) {
    && |ms| >= 2 && ms[0] == Message.System(system) && ms[1] == User(user)
    && Accepts([], ms[2..])
  }

  /** `replies` answer `calls`, one each and in order. */
  predicate Answers(replies: seq<Message>, calls: seq<ToolCall>) {
    && |replies| == |calls|
    && forall k | 0 <= k < |calls| :: replies[k].Tool? && replies[k].callId == calls[k].id
  }

  lemma {:induction false} AnswersAccepted(replies: seq<Message>, calls: seq<ToolCall>)
    requires Answers(replies, calls)
    ensures Accepts(Ids(calls), replies)
    decreases |calls|
  {
    if calls != [] {
      AnswersAccepted(replies[1..], calls[1..]);
      assert Ids(calls)[1..] == Ids(calls[1..]);
    }
  }

  lemma {:induction false} AcceptsSum(pending: seq<string>, a: seq<Message>, b: seq<Message>)
    requires Accepts(pending, a) && Accepts([], b)
    ensures Accepts(pending, a + b)
    decreases |a|
  {
    hide Ids;
    if a == [] {
      assert a + b == b;
    } else {
      assert (a + b)[1..] == a[1..] + b;
      match a[0]
      case Assistant(_, calls) => AcceptsSum(Ids(calls), a[1..], b);
      case Tool(_, _) => AcceptsSum(pending[1..], a[1..], b);
      case _ =>
    }
  }

  lemma BlockAccepted(content: string, calls: seq<ToolCall>, replies: seq<Message>)
    requires calls != [] && Answers(replies, calls)
    ensures Accepts([], [Assistant(content, calls)] + replies)
  {
    AnswersAccepted(replies, calls);
    assert ([Assistant(content, calls)] + replies)[1..] == replies;
    hide Answers;
  }

  /** A whole round keeps the transcript acceptable. */
  lemma RoundKeepsWellFormed(
    system: string, user: string, ms: seq<Message>, content: string, calls: seq<ToolCall>, replies: seq<Message>)
    requires WellFormed(system, user, ms) && calls != [] && Answers(replies, calls)
    ensures WellFormed(system, user, ms + [Assistant(content, calls)] + replies)
  {
    hide Accepts, Answers;
    var block := [Assistant(content, calls)] + replies;
    BlockAccepted(content, calls, replies);
    AcceptsSum([], ms[2..], block);
    var all := ms + [Assistant(content, calls)] + replies;
    assert all[2..] == ms[2..] + block;
  }

  lemma IdsAt(calls: seq<ToolCall>, k: nat)
    requires k < |calls|
    ensures |Ids(calls)| == |calls| && Ids(calls)[k] == calls[k].id
  {
    if k > 0 { IdsAt(calls[1..], k - 1); }
    else if |calls| > 1 { IdsAt(calls[1..], 0); }
  }

  /** What acceptance means: an assistant turn at `i` is followed by exactly its replies, in call order. */
  lemma {:induction false} AcceptedTurnIsAnswered(pending: seq<string>, ms: seq<Message>, i: nat)
    requires Accepts(pending, ms) && i < |ms| && ms[i].Assistant?
    ensures var calls := ms[i].calls;
            && i + |calls| < |ms| && Answers(ms[i + 1..i + 1 + |calls|], calls)
            && (i + 1 + |calls| < |ms| ==> ms[i + 1 + |calls|].Assistant?)
    decreases |ms|
  {
    if i == 0 {
      FirstTurnIsAnswered(pending, ms);
    } else {
      var rest := if ms[0].Assistant? then Ids(ms[0].calls) else pending[1..];
      AcceptedTurnIsAnswered(rest, ms[1..], i - 1);
      assert ms[1..][i - 1] == ms[i];
      var n := |ms[i].calls|;
      ShiftedSlice(ms, i, i + n);
      assert i + 1 + n < |ms| ==> ms[1..][i + n] == ms[i + 1 + n];
    }
  }

  lemma ShiftedSlice(ms: seq<Message>, i: nat, j: nat)
    requires i <= j < |ms|
    ensures ms[1..][i..j] == ms[i + 1..j + 1]
  {
    var a, b := ms[1..][i..j], ms[i + 1..j + 1];
    assert |a| == |b|;
    forall k | 0 <= k < |a| ensures a[k] == b[k] {
      assert a[k] == ms[1..][i + k] && ms[1..][i + k] == ms[i + 1 + k];
    }
  }

  lemma FirstTurnIsAnswered(pending: seq<string>, ms: seq<Message>)
    requires Accepts(pending, ms) && ms != [] && ms[0].Assistant?
    ensures var calls := ms[0].calls;
            && |calls| < |ms| && Answers(ms[1..1 + |calls|], calls)
            && (1 + |calls| < |ms| ==> ms[1 + |calls|].Assistant?)
  {
    var calls := ms[0].calls;
    IdsAt(calls, 0);
    var n, rest := |calls|, ms[1..];
    PendingAreAnswered(Ids(calls), rest);
    forall k | 0 <= k < n ensures ms[1..1 + n][k].Tool? && ms[1..1 + n][k].callId == calls[k].id {
      IdsAt(calls, k);
      assert ms[1..1 + n][k] == rest[k];
    }
    assert 1 + n < |ms| ==> rest[n] == ms[1 + n];
  }

  lemma {:induction false} PendingAreAnswered(pending: seq<string>, ms: seq<Message>)
    requires Accepts(pending, ms)
    ensures |pending| <= |ms|
    ensures forall k | 0 <= k < |pending| :: ms[k].Tool? && ms[k].callId == pending[k]
    ensures |pending| < |ms| ==> ms[|pending|].Assistant?
    decreases |pending|
  {
    if pending != [] {
      PendingAreAnswered(pending[1..], ms[1..]);
      forall k | 0 <= k < |pending| ensures ms[k].Tool? && ms[k].callId == pending[k] {
        if k > 0 { assert ms[1..][k - 1] == ms[k] && pending[1..][k - 1] == pending[k]; }
      }
    }
  }

  // ---------------------------------------------------------------------------------------
  // Token accounting
  // ---------------------------------------------------------------------------------------

  function InputOf(r: Reply): nat { if r.Answer? && r.usage.Some? then r.usage.value.0 else 0 }
  function OutputOf(r: Reply): nat { if r.Answer? && r.usage.Some? then r.usage.value.1 else 0 }

  /** Prompt tokens reported by the first `n` replies. */
  function InputSum(env: Env, n: nat): nat {
    if n == 0 then 0 else InputSum(env, n - 1) + InputOf(env.reply(n - 1))
  }

  function OutputSum(env: Env, n: nat): nat {
    if n == 0 then 0 else OutputSum(env, n - 1) + OutputOf(env.reply(n - 1))
  }

  /** The sums grow by what each reply reports: nothing for errors and for answers without usage. */
  lemma UsageAddsUp(env: Env, n: nat)
    ensures InputSum(env, 0) == 0 && OutputSum(env, 0) == 0
    ensures match env.reply(n)
            case Answer(Some((prompt, completion)), _) =>
              && InputSum(env, n + 1) == InputSum(env, n) + prompt
              && OutputSum(env, n + 1) == OutputSum(env, n) + completion
            case _ => InputSum(env, n + 1) == InputSum(env, n) && OutputSum(env, n + 1) == OutputSum(env, n)
  {}

  /** Which replies end the call: errors, answers without tool calls, and the last request anyway. */
  predicate Final(env: Env, k: nat, maxRounds: int) {
    Ends(env.reply(k)) || k >= maxRounds
  }

  /** An error, a response without choices, or an answer without tool calls. */
  predicate Ends(reply: Reply) {
    !reply.Answer? || reply.choice.None? || reply.choice.value.calls == []
  }

  /** What the call returns when the reply to request `k` was the last one. */
  ghost predicate ReportsReply(env: Env, k: nat, maxRounds: int, result: LlmResult) {
    match env.reply(k)
    case Timeout(error) => result.status == TimedOut && result.text == "" && result.error == error
    case Failure(error) => result.status == Errored && result.text == "" && result.error == error
    case Answer(_, None) => result.status == Errored && result.text == ""
    case Answer(_, Some(choice)) =>
      if Final(env, k, maxRounds) then result.status == Ok && result.text == Sanitize.Sanitized(choice.content).0
      else result.status == Errored && result.text == ""
  }

  // ---------------------------------------------------------------------------------------
  // The conversation, round by round
  // ---------------------------------------------------------------------------------------

  predicate Known(env: Env, call: ToolCall) { call.name in env.known }

  /** Handler runs that a list of calls causes: none for an unknown tool. */
  function RunCount(env: Env, calls: seq<ToolCall>): nat {
    if calls == [] then 0
    else RunCount(env, calls[..|calls| - 1]) + if Known(env, calls[|calls| - 1]) then 1 else 0
  }

  /** Arguments that do not parse become an empty object. */
  function ArgumentsOf(env: Env, call: ToolCall): string {
    match env.parse(if call.arguments == "" then "{}" else call.arguments)
    case Some(parsed) => parsed
    case None => "{}"
  }

  /** The tool message for one call when `run` handler runs went before; `None` aborts the whole call. */
  function ReplyTo(env: Env, call: ToolCall, run: nat): Option<Message> {
    if !Known(env, call) then Some(Tool(call.id, "unknown tool: " + call.name))
    else
      match env.run(run, call.name, ArgumentsOf(env, call))
      case Returns(json) => Some(Tool(call.id, json))
      case Raises(error) => Some(Tool(call.id, error))
      case Unserialisable(_) => None
  }

  /** The replies to one assistant turn, in call order; `None` when a result cannot be serialised. */
  function RepliesTo(env: Env, calls: seq<ToolCall>, runs: nat): Option<seq<Message>> {
    if calls == [] then Some([])
    else
      var n := |calls| - 1;
      var earlier := RepliesTo(env, calls[..n], runs);
      var last := ReplyTo(env, calls[n], runs + RunCount(env, calls[..n]));
      if earlier.None? || last.None? then None else Some(earlier.value + [last.value])
  }

  lemma {:induction false} RepliesAnswer(env: Env, calls: seq<ToolCall>, runs: nat)
    ensures var replies := RepliesTo(env, calls, runs); replies.Some? ==> Answers(replies.value, calls)
    decreases |calls|
  {
    if calls != [] {
      RepliesAnswer(env, calls[..|calls| - 1], runs);
    }
  }

  // What a reply contains, told from the call and the handler run alone.

  /** How many of the first `k` calls run a handler. */
  function KnownBefore(env: Env, calls: seq<ToolCall>, k: nat): nat
    requires k <= |calls|
  {
    |set j | 0 <= j < k && calls[j].name in env.known|
  }

  /**
   `m` answers `call` with the outcome of handler run `run`: the parsed arguments were passed on, or an
   empty object when there are none or they do not parse; an unknown tool runs nothing.
   */
  ghost predicate CarriesRun(env: Env, call: ToolCall, run: nat, m: Message) {
    && m.Tool? && m.callId == call.id
    && (call.name !in env.known ==> m.content == "unknown tool: " + call.name)
    && (call.name in env.known ==>
          exists args: string ::
            && env.run(run, call.name, args) in {Returns(m.content), Raises(m.content)}
            && (call.arguments != "" ==>
                  if env.parse(call.arguments).Some? then args == env.parse(call.arguments).value else args == "{}")
            && (call.arguments == "" ==> if env.parse("{}").Some? then args == env.parse("{}").value else args == "{}"))
  }

  lemma {:induction false} RunCountIsKnown(env: Env, calls: seq<ToolCall>, k: nat)
    requires k <= |calls|
    ensures RunCount(env, calls[..k]) == KnownBefore(env, calls, k)
    decreases k
  {
    var known := set j | 0 <= j < k && calls[j].name in env.known;
    if k > 0 {
      RunCountIsKnown(env, calls, k - 1);
      assert calls[..k][..k - 1] == calls[..k - 1];
      var fewer := set j | 0 <= j < k - 1 && calls[j].name in env.known;
      assert known == fewer + if calls[k - 1].name in env.known then {k - 1} else {};
    }
  }

  lemma ReplyCarriesRun(env: Env, call: ToolCall, run: nat)
    requires ReplyTo(env, call, run).Some?
    ensures CarriesRun(env, call, run, ReplyTo(env, call, run).value)
  {
    var args := ArgumentsOf(env, call);
  }

  lemma {:induction false} RepliesCarryRuns(env: Env, calls: seq<ToolCall>, runs: nat)
    requires RepliesTo(env, calls, runs).Some?
    ensures var replies := RepliesTo(env, calls, runs).value;
            && |replies| == |calls|
            && forall k | 0 <= k < |calls| :: CarriesRun(env, calls[k], runs + KnownBefore(env, calls, k), replies[k])
    decreases |calls|
  {
    hide CarriesRun, ReplyTo, RunCount, KnownBefore;
    if calls != [] {
      var n := |calls| - 1;
      RepliesCarryRuns(env, calls[..n], runs);
      ReplyCarriesRun(env, calls[n], runs + RunCount(env, calls[..n]));
      RunCountIsKnown(env, calls, n);
      forall k | 0 <= k < n ensures KnownBefore(env, calls[..n], k) == KnownBefore(env, calls, k) {
        KnownInPrefix(env, calls, n, k);
      }
    }
  }

  lemma KnownInPrefix(env: Env, calls: seq<ToolCall>, n: nat, k: nat)
    requires k <= n <= |calls|
    ensures KnownBefore(env, calls[..n], k) == KnownBefore(env, calls, k)
  {
    assert (set j | 0 <= j < k && calls[..n][j].name in env.known) ==
           (set j | 0 <= j < k && calls[j].name in env.known);
  }

  lemma {:induction false} AbortIsForGood(env: Env, calls: seq<ToolCall>, runs: nat, n: nat)
    requires n <= |calls| && RepliesTo(env, calls[..n], runs).None?
    ensures RepliesTo(env, calls, runs).None?
    decreases |calls|
  {
    if n < |calls| {
      var m := |calls| - 1;
      assert calls[..m][..n] == calls[..n];
      AbortIsForGood(env, calls[..m], runs, n);
    } else {
      assert calls[..n] == calls;
    }
  }

  /** The conversation after some whole rounds, and the handler runs so far; `None` after an abort. */
  datatype Talk = Talk(messages: seq<Message>, runs: nat)

  function Opening(system: string, user: string): seq<Message> {
    [Message.System(system), User(user)]
  }

  /** One round: the model's turn and the replies to all its calls. */
  function NextTalk(env: Env, talk: Talk, choice: Choice): Option<Talk> {
    match RepliesTo(env, choice.calls, talk.runs)
    case None => None
    case Some(replies) =>
      Some(Talk(talk.messages + [Assistant(choice.content, choice.calls)] + replies,
                talk.runs + RunCount(env, choice.calls)))
  }

  /** What request number `k` carries: `None` when the call ends before. */
  function TalkAt(env: Env, system: string, user: string, k: nat): Option<Talk> {
    if k == 0 then Some(Talk(Opening(system, user), 0))
    else
      var before, reply := TalkAt(env, system, user, k - 1), env.reply(k - 1);
      if before.None? || Ends(reply) then None
      else NextTalk(env, before.value, reply.choice.value)
  }

  /** Whatever model and tools do, each request carries a conversation the API accepts. */
  lemma {:induction false} TalkIsWellFormed(env: Env, system: string, user: string, k: nat)
    requires TalkAt(env, system, user, k).Some?
    ensures WellFormed(system, user, TalkAt(env, system, user, k).value.messages)
    decreases k
  {
    if k > 0 {
      TalkIsWellFormed(env, system, user, k - 1);
      var before, choice := TalkAt(env, system, user, k - 1).value, env.reply(k - 1).choice.value;
      RepliesAnswer(env, choice.calls, before.runs);
      var replies := RepliesTo(env, choice.calls, before.runs).value;
      RoundKeepsWellFormed(system, user, before.messages, choice.content, choice.calls, replies);
      hide WellFormed, Answers, RepliesTo;
    }
  }

  /** Conversations only grow. */
  lemma {:induction false} TalkGrows(env: Env, system: string, user: string, j: nat, k: nat)
    requires j < k && TalkAt(env, system, user, k).Some?
    ensures TalkAt(env, system, user, j).Some?
    ensures TalkAt(env, system, user, j).value.messages < TalkAt(env, system, user, k).value.messages
    decreases k
  {
    hide RepliesTo, RunCount;
    if j < k - 1 {
      TalkGrows(env, system, user, j, k - 1);
    }
  }

  // ---------------------------------------------------------------------------------------
  // The loop
  // ---------------------------------------------------------------------------------------

  /**
   The replies to one assistant turn. An unknown tool and a raising one are answered with an error;
   only a result that cannot be serialised aborts the call.
   */
  method AnswerCalls(env: Env, calls: seq<ToolCall>, runs: nat)
      returns (replies: seq<Message>, runs': nat, aborted: Option<string>)
    ensures aborted.None? ==> RepliesTo(env, calls, runs) == Some(replies) && runs' == runs + RunCount(env, calls)
    ensures aborted.None? ==>
              && |replies| == |calls| && runs' == runs + KnownBefore(env, calls, |calls|)
              && forall k | 0 <= k < |calls| ::
                   CarriesRun(env, calls[k], runs + KnownBefore(env, calls, k), replies[k])
    ensures aborted.Some? ==> RepliesTo(env, calls, runs).None?
  {
    hide ArgumentsOf, CarriesRun, KnownBefore;
    replies, runs', aborted := [], runs, None;
    for k := 0 to |calls|
      invariant aborted.None? && RepliesTo(env, calls[..k], runs) == Some(replies)
      invariant runs' == runs + RunCount(env, calls[..k])
    {
      var call := calls[k];
      assert calls[..k + 1][..k] == calls[..k];
      var content;
      if call.name !in env.known {
        content := "unknown tool: " + call.name;
      } else {
        var run := env.run(runs', call.name, ArgumentsOf(env, call));
        runs' := runs' + 1;
        match run
        case Returns(json) => content := json;
        case Raises(error) => content := error;
        case Unserialisable(error) =>
          AbortIsForGood(env, calls, runs, k + 1);
          return replies, runs', Some(error);
      }
      replies := replies + [Tool(call.id, content)];
    }
    assert calls[..|calls|] == calls;
    RepliesCarryRuns(env, calls, runs);
    RunCountIsKnown(env, calls, |calls|);
  }

  /** The requests sent: the conversation of each round, with tools offered in all but the last possible one. */
  ghost predicate ExactRequests(env: Env, system: string, user: string, maxRounds: int, requests: seq<Request>) {
    forall k | 0 <= k < |requests| ::
      && TalkAt(env, system, user, k).Some?
      && requests[k] == Request(TalkAt(env, system, user, k).value.messages, k < maxRounds)
  }

  lemma OneMoreRequest(env: Env, system: string, user: string, maxRounds: int, requests: seq<Request>)
    requires ExactRequests(env, system, user, maxRounds, requests)
    requires TalkAt(env, system, user, |requests|).Some?
    ensures ExactRequests(env, system, user, maxRounds,
              requests + [Request(TalkAt(env, system, user, |requests|).value.messages, |requests| < maxRounds)])
  {
    hide TalkAt;
  }

  /** Every request is well-formed, tools are withheld exactly after the round budget, and history only grows. */
  lemma RequestsAreSound(env: Env, system: string, user: string, maxRounds: int, requests: seq<Request>)
    requires ExactRequests(env, system, user, maxRounds, requests)
    ensures forall k | 0 <= k < |requests| :: WellFormed(system, user, requests[k].messages)
    ensures forall k | 0 <= k < |requests| :: requests[k].offersTools <==> k < maxRounds
    ensures forall j, k | 0 <= j < k < |requests| :: requests[j].messages < requests[k].messages
  {
    hide TalkAt, WellFormed;
    forall k | 0 <= k < |requests| ensures WellFormed(system, user, requests[k].messages) {
      TalkIsWellFormed(env, system, user, k);
    }
    forall j, k | 0 <= j < k < |requests| ensures requests[j].messages < requests[k].messages {
      TalkGrows(env, system, user, j, k);
    }
  }

  /** Handler runs in the first `n` rounds. */
  function RunsBefore(env: Env, n: nat): nat {
    if n == 0 then 0
    else
      RunsBefore(env, n - 1) +
      match env.reply(n - 1)
      case Answer(_, Some(choice)) => KnownBefore(env, choice.calls, |choice.calls|)
      case _ => 0
  }

  lemma {:induction false} RunsSoFar(env: Env, system: string, user: string, k: nat)
    requires TalkAt(env, system, user, k).Some?
    ensures TalkAt(env, system, user, k).value.runs == RunsBefore(env, k)
    decreases k
  {
    hide KnownBefore, RunCount, RepliesTo;
    if k > 0 {
      RunsSoFar(env, system, user, k - 1);
      var calls := env.reply(k - 1).choice.value.calls;
      RunCountIsKnown(env, calls, |calls|);
      assert calls[..|calls|] == calls;
    }
  }

  /**
   From one request to the next the conversation grows by what the model answered and by one message
   per call, each with the outcome of its own handler run.
   */
  lemma RequestsCarryRuns(
    env: Env, system: string, user: string, maxRounds: int, requests: seq<Request>, k: nat)
      returns (replies: seq<Message>)
    requires ExactRequests(env, system, user, maxRounds, requests) && k < |requests|
    ensures k == 0 ==> requests[0].messages == [Message.System(system), User(user)]
    ensures k > 0 ==>
              && env.reply(k - 1).Answer? && env.reply(k - 1).choice.Some?
              && var choice := env.reply(k - 1).choice.value;
                 && requests[k].messages ==
                    requests[k - 1].messages + [Assistant(choice.content, choice.calls)] + replies
                 && |replies| == |choice.calls|
                 && forall j | 0 <= j < |choice.calls| ::
                      var run := RunsBefore(env, k - 1) + KnownBefore(env, choice.calls, j);
                      CarriesRun(env, choice.calls[j], run, replies[j])
  {
    hide CarriesRun, KnownBefore, RepliesTo, RunsBefore;
    replies := [];
    assert requests[k].messages == TalkAt(env, system, user, k).value.messages;
    if k > 0 {
      assert requests[k - 1].messages == TalkAt(env, system, user, k - 1).value.messages;
      var before, choice := TalkAt(env, system, user, k - 1).value, env.reply(k - 1).choice.value;
      RunsSoFar(env, system, user, k - 1);
      RepliesCarryRuns(env, choice.calls, before.runs);
      replies := RepliesTo(env, choice.calls, before.runs).value;
    }
  }

  /** The result built from a reply that ends the call. */
  function Conclude(reply: Reply, input: nat, output: nat, estimate: nat): LlmResult {
    var reported := if input == 0 then estimate else input;
    match reply
    case Timeout(error) => LlmResult(TimedOut, "", error, reported, output)
    case Failure(error) => LlmResult(Errored, "", error, reported, output)
    case Answer(_, None) => LlmResult(Errored, "", "no choices", reported, output)
    case Answer(_, Some(choice)) => LlmResult(Ok, Sanitize.Sanitized(choice.content).0, "", reported, output)
  }

  /** Tokens are summed over all replies; an input sum of zero is replaced by the estimate. */
  ghost predicate ReportsTokens(env: Env, n: nat, estimate: nat, result: LlmResult) {
    && result.outputTokens == OutputSum(env, n)
    && result.inputTokens == if InputSum(env, n) == 0 then estimate else InputSum(env, n)
  }

  /** The outcome of the flag and egress checks in front of the loop. */
  datatype Outcome = Delegated | Blocked(reason: string) | Called(result: LlmResult)

  /**
   Exactly the conversation of `TalkAt` is sent, round by round, until a reply ends it, a reply cannot
   be built, or the budget is used up; the result is that of the last reply.
   */
  method CompleteWithTools(
    env: Env, system: string, user: string, maxRounds: int, estimate: nat, toolsOff: bool, egress: Option<string>)
      returns (outcome: Outcome, requests: seq<Request>)
    ensures outcome.Delegated? <==> toolsOff
    ensures outcome.Blocked? <==> !toolsOff && egress.Some?
    ensures !outcome.Called? ==> requests == []
    ensures outcome.Called? ==>
              && 1 <= |requests| <= (if maxRounds < 0 then 0 else maxRounds) + 1
              && ExactRequests(env, system, user, maxRounds, requests)
              && (TalkAt(env, system, user, |requests|).None? || |requests| - 1 >= maxRounds)
              && ReportsTokens(env, |requests|, estimate, outcome.result)
              && ReportsReply(env, |requests| - 1, maxRounds, outcome.result)
  {
    requests := [];
    if toolsOff {
      return Delegated, [];
    }
    if egress.Some? {
      return Blocked(egress.value), [];
    }
    var result;
    result, requests := RunRounds(env, system, user, maxRounds, estimate);
    outcome := Called(result);
  }

  /** What the loop does with the reply to request `k`: finish, or extend the conversation by a round. */
  method HandleReply(
    env: Env, system: string, user: string, maxRounds: int, k: nat, talk: Talk,
    input: nat, output: nat, estimate: nat)
      returns (finished: Option<LlmResult>, talk': Talk)
    requires TalkAt(env, system, user, k) == Some(talk) && k < maxRounds
    requires input == InputSum(env, k + 1) && output == OutputSum(env, k + 1)
    ensures finished.Some? ==>
              && TalkAt(env, system, user, k + 1).None?
              && ReportsTokens(env, k + 1, estimate, finished.value) && ReportsReply(env, k, maxRounds, finished.value)
    ensures finished.None? ==> TalkAt(env, system, user, k + 1) == Some(talk')
  {
    hide RepliesTo, RunCount, Sanitize.Sanitized, ReportsReply, ReportsTokens, Conclude;
    talk' := talk;
    var reply := env.reply(k);
    if Ends(reply) {
      ConcludeReports(env, k, maxRounds, estimate);
      finished := Some(Conclude(reply, input, output, estimate));
      return;
    }
    var choice := reply.choice.value;
    var replies, runs, aborted := AnswerCalls(env, choice.calls, talk.runs);
    if aborted.Some? {
      AbortReports(env, k, maxRounds, estimate, aborted.value);
      finished := Some(LlmResult(Errored, "", aborted.value, if input == 0 then estimate else input, output));
      return;
    }
    talk' := Talk(talk.messages + [Assistant(choice.content, choice.calls)] + replies, runs);
    finished := None;
  }

  lemma NothingSent(env: Env, system: string, user: string, maxRounds: int)
    ensures ExactRequests(env, system, user, maxRounds, [])
    ensures TalkAt(env, system, user, 0) == Some(Talk(Opening(system, user), 0))
    ensures InputSum(env, 0) == 0 && OutputSum(env, 0) == 0
  {}

  method RunRounds(env: Env, system: string, user: string, maxRounds: int, estimate: nat)
      returns (result: LlmResult, requests: seq<Request>)
    ensures 1 <= |requests| <= (if maxRounds < 0 then 0 else maxRounds) + 1
    ensures ExactRequests(env, system, user, maxRounds, requests)
    ensures TalkAt(env, system, user, |requests|).None? || |requests| - 1 >= maxRounds
    ensures ReportsTokens(env, |requests|, estimate, result)
    ensures ReportsReply(env, |requests| - 1, maxRounds, result)
  {
    hide TalkAt, ReportsReply, ReportsTokens, Conclude, Opening, ExactRequests, Ends, Final, InputSum, OutputSum;
    requests := [];
    var talk := Talk(Opening(system, user), 0);
    var input, output := 0, 0;
    var round := 0;
    NothingSent(env, system, user, maxRounds);
    while round < maxRounds
      invariant 0 <= round && (round == 0 || round <= maxRounds)
      invariant |requests| == round && ExactRequests(env, system, user, maxRounds, requests)
      invariant TalkAt(env, system, user, round) == Some(talk)
      invariant input == InputSum(env, round) && output == OutputSum(env, round)
    {
      OneMoreRequest(env, system, user, maxRounds, requests);
      requests := requests + [Request(talk.messages, true)];
      input, output := AddUsage(env, round, input, output);
      var finished;
      finished, talk := HandleReply(env, system, user, maxRounds, round, talk, input, output, estimate);
      if finished.Some? {
        return finished.value, requests;
      }
      round := round + 1;
    }
    OneMoreRequest(env, system, user, maxRounds, requests);
    requests := requests + [Request(talk.messages, false)];
    result := LastAnswer(env, round, maxRounds, input, output, estimate);
  }

  /** The request without tools: whatever it answers is final. */
  method LastAnswer(env: Env, k: nat, maxRounds: int, input: nat, output: nat, estimate: nat)
      returns (result: LlmResult)
    requires k >= maxRounds && input == InputSum(env, k) && output == OutputSum(env, k)
    ensures ReportsTokens(env, k + 1, estimate, result) && ReportsReply(env, k, maxRounds, result)
  {
    var input', output' := AddUsage(env, k, input, output);
    ConcludeReports(env, k, maxRounds, estimate);
    result := Conclude(env.reply(k), input', output', estimate);
  }

  /** Adds the usage that the reply to request `k` reports, if any. */
  method AddUsage(env: Env, k: nat, input: nat, output: nat) returns (input': nat, output': nat)
    requires input == InputSum(env, k) && output == OutputSum(env, k)
    ensures input' == InputSum(env, k + 1) && output' == OutputSum(env, k + 1)
  {
    input', output' := input + InputOf(env.reply(k)), output + OutputOf(env.reply(k));
  }

  /** When a call succeeds, and with what text; every other outcome has none. */
  lemma SucceedsIff(env: Env, k: nat, maxRounds: int, result: LlmResult)
    requires ReportsReply(env, k, maxRounds, result)
    ensures result.status == Ok <==>
            && env.reply(k).Answer? && env.reply(k).choice.Some?
            && (env.reply(k).choice.value.calls == [] || k >= maxRounds)
    ensures result.status == Ok ==> result.text == Sanitize.Sanitized(env.reply(k).choice.value.content).0
    ensures result.status != Ok ==> result.text == ""
    ensures result.status == TimedOut <==> env.reply(k).Timeout?
  {
    hide Sanitize.Sanitized;
  }

  lemma ConcludeReports(env: Env, k: nat, maxRounds: int, estimate: nat)
    requires Final(env, k, maxRounds)
    ensures var result := Conclude(env.reply(k), InputSum(env, k + 1), OutputSum(env, k + 1), estimate);
            ReportsTokens(env, k + 1, estimate, result) && ReportsReply(env, k, maxRounds, result)
  {
    hide Sanitize.Sanitized;
  }

  lemma AbortReports(env: Env, k: nat, maxRounds: int, estimate: nat, error: string)
    requires !Final(env, k, maxRounds)
    ensures var input := InputSum(env, k + 1);
            var result := LlmResult(Errored, "", error, if input == 0 then estimate else input, OutputSum(env, k + 1));
            ReportsTokens(env, k + 1, estimate, result) && ReportsReply(env, k, maxRounds, result)
  {
    hide Sanitize.Sanitized;
  }
}
