/**
  * Rewriting of follow-up queries (`rewrite_query` in chat_utils.py).
  *
  * The language-model client is a parameter: a total function from the
  * prompt it is sent to its reply, `None` standing for any exception raised
  * while calling it or reading its reply. The prompt is modelled by the three
  * texts it is built from; its fixed wording is not modelled.
  */
module ChatUtils {
  import opened Text
  import opened Wrappers

  /** One turn of the conversation history. A missing `role` or `content`
      key reads as "", the default the code asks for. */
  datatype Message = Message(role: string, content: string)

  /** What the client is asked: the previous user question (truncated), the
      start of the previous answer, and the current query. */
  datatype Prompt = Prompt(question: string, answerExcerpt: string, query: string)

  /** At least this many turns are needed before anything is rewritten. */
  const MinHistory: nat := 2
  /** Only this many of the latest turns are searched for an exchange. */
  const WindowSize: nat := 5
  const QuestionLimit: nat := 500
  const AnswerLimit: nat := 1000
  /** Characters of the answer that reach the prompt. */
  const ExcerptLength: nat := 300
  /** A rewrite shorter than this is discarded. */
  const MinRewrite: nat := 5
  /** A rewrite longer than this many times the query is discarded. */
  const MaxGrowth: nat := 3

  // ---------------------------------------------------------------------------
  // The specification

  /** `history[-5:]` when there are at least five turns, else all of them. */
  function Window(history: seq<Message>): (w: seq<Message>)
    ensures |w| == if |history| < WindowSize then |history| else WindowSize
  {
    if |history| >= WindowSize then history[|history| - WindowSize..] else history
  }

  /** The window is the last turns of the history, in their order. */
  lemma WindowIsLastTurns(history: seq<Message>)
    ensures |Window(history)| <= |history|
    ensures Window(history) == history[|history| - |Window(history)|..]
    ensures forall k :: 0 <= k < |Window(history)| ==>
      Window(history)[k] == history[|history| - |Window(history)| + k]
  {
  }

  /** `role.lower() == name`, compared character by character (see
      `RoleIsLower`). */
  predicate RoleIs(role: string, name: string) {
    |role| == |name| && forall k :: 0 <= k < |role| ==> LowerChar(role[k]) == name[k]
  }

  /** A user turn followed directly by an assistant turn starts at `i`. */
  predicate ExchangeAt(w: seq<Message>, i: nat)
    requires i + 1 < |w|
  {
    RoleIs(w[i].role, "user") && RoleIs(w[i + 1].role, "assistant")
  }

  /** The first exchange of the window, scanning forward from `from`. */
  function FirstExchange(w: seq<Message>, from: nat): (r: Option<nat>)
    requires from <= |w|
    ensures r.Some? ==> from <= r.value && r.value + 1 < |w|
    decreases |w| - from
  {
    if from + 1 >= |w| then None
    else if ExchangeAt(w, from) then Some(from)
    else FirstExchange(w, from + 1)
  }

  /** `s[:n] + "..."` when `s` is longer than `n`, else `s`. */
  function Truncate(s: string, n: nat): (r: string)
    ensures |s| <= n ==> r == s
    ensures |s| > n ==> |r| == n + 3 && r[..n] == s[..n] && r[n..] == "..."
  {
    if |s| > n then s[..n] + "..." else s
  }

  /** `s[:n]` */
  function Take(s: string, n: nat): (r: string)
    ensures |r| <= n && |r| <= |s| && r == s[..|r|]
    ensures |r| == n || r == s
  {
    if |s| <= n then s else s[..n]
  }

  /** The prompt sent to the client, or `None` when the client is not
      called: a history of fewer than two turns, no exchange in the window,
      or an exchange with an empty question or answer. */
  function PromptFor(query: string, history: seq<Message>): (p: Option<Prompt>)
  {
    if |history| < MinHistory then None
    else
      var w := Window(history);
      match FirstExchange(w, 0)
      case None => None
      case Some(i) => PromptOf(w[i].content, w[i + 1].content, query)
  }

  /** The prompt built from a question and its answer, unless one is empty. */
  function PromptOf(question: string, answer: string, query: string): (p: Option<Prompt>)
  {
    if question == "" || answer == "" then None
    else Some(Prompt(Truncate(question, QuestionLimit),
                     Take(Truncate(answer, AnswerLimit), ExcerptLength), query))
  }

  /** The reply, stripped, when it passes the guards; else `None`. */
  function Accepted(query: string, reply: string): (r: Option<string>)
    ensures r.Some? <==> MinRewrite <= |Strip(reply)| <= |query| * MaxGrowth
    ensures r.Some? ==> r.value == Strip(reply)
  {
    var rewritten := Strip(reply);
    if rewritten == "" || |rewritten| < MinRewrite || |rewritten| > |query| * MaxGrowth then None
    else Some(rewritten)
  }

  /** The outcome once the client has answered: `None` is a failed call. */
  function Answered(query: string, reply: Option<string>): string
  {
    match reply
    case None => query
    case Some(text) =>
      match Accepted(query, text)
      case None => query
      case Some(rewritten) => rewritten
  }

  /** `rewrite_query(query, history, client)` */
  function RewriteOf(query: string, history: seq<Message>, client: Prompt -> Option<string>): string
  {
    match PromptFor(query, history)
    case None => query
    case Some(p) => Answered(query, client(p))
  }

  // ---------------------------------------------------------------------------
  // The code

  /** `rewrite_query`: also returns the prompt the client was sent, if any. */
  method RewriteQuery(query: string, history: seq<Message>, client: Prompt -> Option<string>)
    returns (rewritten: string, sent: Option<Prompt>)
    ensures sent == PromptFor(query, history)
    ensures rewritten == RewriteOf(query, history, client)
  {
    if |history| < MinHistory {
      return query, None;
    }
    var lastMessages := if |history| >= WindowSize then history[|history| - WindowSize..] else history;
    var userMessage := "";
    var systemResponse := "";
    ghost var found: Option<nat> := None;
    for i := 0 to |lastMessages| - 1
      invariant found == None
      invariant FirstExchange(lastMessages, 0) == FirstExchange(lastMessages, i)
      invariant userMessage == "" && systemResponse == ""
    {
      if RoleIs(lastMessages[i].role, "user") && RoleIs(lastMessages[i + 1].role, "assistant") {
        userMessage := lastMessages[i].content;
        systemResponse := lastMessages[i + 1].content;
        found := Some(i);
        break;
      }
    }
    assert PromptFor(query, history) == PromptOf(userMessage, systemResponse, query) by {
      assert found.Some? ==>
        && FirstExchange(lastMessages, 0) == found
        && userMessage == lastMessages[found.value].content
        && systemResponse == lastMessages[found.value + 1].content;
    }
    rewritten, sent := RewriteFromExchange(query, userMessage, systemResponse, client);
  }

  /** The rest of `rewrite_query`, from the question and answer found (both
      empty when there is no exchange) to the result. */
  method RewriteFromExchange(query: string, question: string, answer: string,
                             client: Prompt -> Option<string>)
    returns (rewritten: string, sent: Option<Prompt>)
    ensures sent == PromptOf(question, answer, query)
    ensures rewritten == match sent case None => query case Some(p) => Answered(query, client(p))
  {
    if question == "" || answer == "" {
      return query, None;
    }
    var userMessage, systemResponse := question, answer;
    if |userMessage| > QuestionLimit {
      userMessage := userMessage[..QuestionLimit] + "...";
    }
    if |systemResponse| > AnswerLimit {
      systemResponse := systemResponse[..AnswerLimit] + "...";
    }
    var excerpt := if |systemResponse| <= ExcerptLength then systemResponse else systemResponse[..ExcerptLength];
    sent := Some(Prompt(userMessage, excerpt, query));
    var reply := client(sent.value);
    if reply.None? {
      return query, sent;
    }
    var rewrittenQuery := Strip(reply.value);
    if rewrittenQuery == "" || |rewrittenQuery| < MinRewrite || |rewrittenQuery| > |query| * MaxGrowth {
      return query, sent;
    }
    return rewrittenQuery, sent;
  }

  // ---------------------------------------------------------------------------
  // Properties

  /** The role test is the case-insensitive comparison `role.lower() == name`. */
  lemma RoleIsLower(role: string, name: string)
    ensures RoleIs(role, name) <==> Lower(role) == name
  {
    if RoleIs(role, name) {
      assert Lower(role) == name;
    }
  }

  /** The exchange found is the first one of the window. */
  lemma {:induction false} FirstExchangeLeast(w: seq<Message>, from: nat)
    requires from <= |w|
    ensures FirstExchange(w, from).Some? ==>
      var i := FirstExchange(w, from).value;
      from <= i && i + 1 < |w| && ExchangeAt(w, i) && forall k :: from <= k < i ==> !ExchangeAt(w, k)
    ensures FirstExchange(w, from).None? ==> forall k :: from <= k && k + 1 < |w| ==> !ExchangeAt(w, k)
    decreases |w| - from
  {
    if from + 1 < |w| && !ExchangeAt(w, from) {
      FirstExchangeLeast(w, from + 1);
    }
  }

  /** With fewer than two turns the query is returned and the client is
      never called. */
  lemma ShortHistoryUnchanged(query: string, history: seq<Message>, client: Prompt -> Option<string>)
    requires |history| < MinHistory
    ensures PromptFor(query, history) == None
    ensures RewriteOf(query, history, client) == query
  {
  }

  /** The result is the query itself, or the stripped reply of the client,
      at least 5 and at most three times the query's length long. */
  lemma RewriteBounds(query: string, history: seq<Message>, client: Prompt -> Option<string>)
    ensures var r := RewriteOf(query, history, client);
      r == query ||
      (exists p :: PromptFor(query, history) == Some(p) && client(p).Some? && r == Strip(client(p).value)
                   && MinRewrite <= |r| <= MaxGrowth * |query|)
  {
  }

  /** The result is empty only when the query is. */
  lemma RewriteNeverEmpty(query: string, history: seq<Message>, client: Prompt -> Option<string>)
    ensures RewriteOf(query, history, client) == "" ==> query == ""
  {
    RewriteBounds(query, history, client);
  }

  /** A failing client leaves the query unchanged. */
  lemma FailureFallsBack(query: string, history: seq<Message>, client: Prompt -> Option<string>)
    requires forall p :: client(p) == None
    ensures RewriteOf(query, history, client) == query
  {
  }

  /** The client is called exactly when there are two turns or more and the
      window holds a user turn directly followed by an assistant turn whose
      first such pair has a non-empty question and answer. */
  lemma PromptSentIff(query: string, history: seq<Message>)
    ensures PromptFor(query, history).Some? <==>
      |history| >= MinHistory && exists i :: CalledOn(Window(history), i)
  {
    var w := Window(history);
    FirstExchangeLeast(w, 0);
    if |history| >= MinHistory {
      match FirstExchange(w, 0)
      case None =>
      case Some(j) =>
        assert PromptFor(query, history).Some? <==> w[j].content != "" && w[j + 1].content != "";
        if w[j].content != "" && w[j + 1].content != "" {
          assert CalledOn(w, j);
        }
        forall i | CalledOn(w, i)
          ensures i == j
        {
          assert !(j < i) && !(i < j);
        }
    }
  }

  /** The first exchange of window `w` starts at `i`, and neither its
      question nor its answer is empty. */
  predicate CalledOn(w: seq<Message>, i: int)
  {
    && 0 <= i && i + 1 < |w| && ExchangeAt(w, i)
    && (forall k :: 0 <= k < i ==> !ExchangeAt(w, k))
    && w[i].content != "" && w[i + 1].content != ""
  }

  /** What the prompt carries: the question, truncated to 500 characters and
      marked with "...", the first 300 characters of the answer, and the
      query. The 1000-character truncation of the answer never shows. */
  lemma PromptContents(query: string, history: seq<Message>)
    requires PromptFor(query, history).Some?
    ensures var p := PromptFor(query, history).value;
      var w := Window(history);
      var i := FirstExchange(w, 0).value;
      && i + 1 < |w| && p.query == query
      && p.question == Truncate(w[i].content, QuestionLimit) && p.question != ""
      && |p.question| <= QuestionLimit + 3
      && p.answerExcerpt == Take(w[i + 1].content, ExcerptLength) && p.answerExcerpt != ""
  {
    var w := Window(history);
    FirstExchangeLeast(w, 0);
    var i := FirstExchange(w, 0).value;
    var a := w[i + 1].content;
    if |a| > AnswerLimit {
      assert Truncate(a, AnswerLimit)[..ExcerptLength] == a[..ExcerptLength];
    }
  }
}
