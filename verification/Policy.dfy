/** The AI policy: rewriting requests, refusing them, filtering responses
    (gateway/pkg/gateway/openai.go and http_gateway.go).

    Bodies are decoded values; `length` stands for the encoder, as the length of what it writes. */
module Policy {
  import opened Words
  import opened Rewriter
  import opened Selections

  const REFUSAL := "kube-gateway says no"

  datatype ModelRule = ModelRule(orig: string, replacement: string)
  datatype RequestPolicy = RequestPolicy(modelReplace: seq<ModelRule>, userPromptReplace: seq<Rule>, block: bool)

  /** A message by role. `text` is absent when the content is not a plain string; `other` stands for
      the fields the policy does not touch. */
  datatype Message =
    | User(text: Option<string>, other: nat)
    | Assistant(text: Option<string>, other: nat)
    | Developer(text: Option<string>, other: nat)
    | Tool(text: Option<string>, other: nat)
    | Unknown(other: nat)

  datatype Chat = Chat(model: string, messages: seq<Message>, other: nat)

  // ---------------------------------------------------------------- the model

  /** The loop's effect: each rule in turn applies to what the rules before it made of the model. */
  function Substitute(model: string, rules: seq<ModelRule>): string {
    if rules == [] then model
    else
      var before := Substitute(model, rules[..|rules| - 1]);
      if before == rules[|rules| - 1].orig then rules[|rules| - 1].replacement else before
  }

  /** The first rule for the model decides. */
  function Lookup(model: string, rules: seq<ModelRule>): string {
    if rules == [] then model
    else if rules[0].orig == model then rules[0].replacement
    else Lookup(model, rules[1..])
  }

  /** No rule's replacement is the word of a later rule. */
  predicate NoChain(rules: seq<ModelRule>) {
    forall i, j | 0 <= i < j < |rules| :: rules[i].replacement != rules[j].orig
  }

  /** Nor of an earlier one. */
  predicate NoCycle(rules: seq<ModelRule>) {
    forall i, j | 0 <= i < |rules| && 0 <= j < |rules| && i != j :: rules[i].replacement != rules[j].orig
  }

  /** The rules from the first on are the first one, then the others. */
  lemma {:induction false} SubstituteHead(model: string, rules: seq<ModelRule>)
    requires rules != []
    ensures Substitute(model, rules) ==
            Substitute(if model == rules[0].orig then rules[0].replacement else model, rules[1..])
  {
    var front := rules[..|rules| - 1];
    if front == [] {
      assert rules[1..] == [];
    } else {
      SubstituteHead(model, front);
      assert front[1..] == rules[1..][..|rules[1..]| - 1];
    }
  }

  /** The first rule for the word from rule k on. */
  function Next(word: string, rules: seq<ModelRule>, k: nat): (i: nat)
    requires k <= |rules|
    ensures k <= i <= |rules| && (i < |rules| ==> rules[i].orig == word)
    ensures forall j | k <= j < i :: rules[j].orig != word
    decreases |rules| - k
  {
    if k == |rules| || rules[k].orig == word then k else Next(word, rules, k + 1)
  }

  /** Where rule i leads: on to the first later rule for its replacement, and so on. */
  function Trail(rules: seq<ModelRule>, i: nat): (last: nat)
    requires i < |rules|
    ensures i <= last < |rules|
    ensures forall j | last < j < |rules| :: rules[j].orig != rules[last].replacement
    ensures last == i || exists j :: 0 <= j < last && rules[j].replacement == rules[last].orig
    decreases |rules| - i
  {
    var j := Next(rules[i].replacement, rules, i + 1);
    if j == |rules| then i else Trail(rules, j)
  }

  /** The chained substitution follows the trail of the first matching rule. */
  lemma {:induction false} SubstituteFollowsTrail(model: string, rules: seq<ModelRule>, k: nat)
    requires k <= |rules|
    ensures var i := Next(model, rules, k);
            Substitute(model, rules[k..]) == if i == |rules| then model else rules[Trail(rules, i)].replacement
    decreases |rules| - k
  {
    if k < |rules| {
      SubstituteHead(model, rules[k..]);
      assert rules[k..][1..] == rules[k + 1..];
      SubstituteFollowsTrail(if model == rules[k].orig then rules[k].replacement else model, rules, k + 1);
    }
  }

  lemma {:induction false} LookupIsNext(model: string, rules: seq<ModelRule>, k: nat)
    requires k <= |rules|
    ensures var i := Next(model, rules, k);
            Lookup(model, rules[k..]) == if i == |rules| then model else rules[i].replacement
    decreases |rules| - k
  {
    if k < |rules| {
      LookupIsNext(model, rules, k + 1);
      assert rules[k..][1..] == rules[k + 1..];
    }
  }

  /** For a given model the chained substitution is a lookup of the first matching rule exactly when
      that rule's trail ends with the replacement it began with. */
  lemma SubstituteIsLookupExactlyWhen(model: string, rules: seq<ModelRule>)
    ensures var i := Next(model, rules, 0);
            Substitute(model, rules) == Lookup(model, rules) <==>
              i == |rules| || Returns(rules, i)
  {
    SubstituteFollowsTrail(model, rules, 0);
    LookupIsNext(model, rules, 0);
    assert rules[0..] == rules;
  }

  /** The first rule for its word. */
  predicate IsFirst(rules: seq<ModelRule>, i: nat)
    requires i < |rules|
  {
    forall j | 0 <= j < i :: rules[j].orig != rules[i].orig
  }

  /** The trail of a rule ends with the replacement it began with. */
  predicate Returns(rules: seq<ModelRule>, i: nat)
    requires i < |rules|
  {
    rules[Trail(rules, i)].replacement == rules[i].replacement
  }

  ghost predicate IsAlwaysLookup(rules: seq<ModelRule>) {
    forall model :: Substitute(model, rules) == Lookup(model, rules)
  }

  /** Every rule that some model reaches. */
  predicate AllReturn(rules: seq<ModelRule>) {
    forall i | 0 <= i < |rules| && IsFirst(rules, i) :: Returns(rules, i)
  }

  /** And for all models alike exactly when this is so of every rule that some model reaches. */
  lemma SubstituteIsLookupForAll(rules: seq<ModelRule>)
    ensures IsAlwaysLookup(rules) <==> AllReturn(rules)
  {
    if IsAlwaysLookup(rules) {
      forall i | 0 <= i < |rules| && IsFirst(rules, i)
        ensures Returns(rules, i)
      {
        ReturnsIfLookup(rules, i);
      }
    }
    if AllReturn(rules) {
      forall model
        ensures Substitute(model, rules) == Lookup(model, rules)
      {
        LookupIfReturns(model, rules);
      }
    }
  }

  lemma ReturnsIfLookup(rules: seq<ModelRule>, i: nat)
    requires i < |rules| && IsFirst(rules, i)
    requires Substitute(rules[i].orig, rules) == Lookup(rules[i].orig, rules)
    ensures Returns(rules, i)
  {
    NextIsFirst(rules[i].orig, rules, i);
    SubstituteIsLookupExactlyWhen(rules[i].orig, rules);
  }

  lemma NextIsFirst(word: string, rules: seq<ModelRule>, i: nat)
    requires i < |rules| && rules[i].orig == word && forall j | 0 <= j < i :: rules[j].orig != word
    ensures Next(word, rules, 0) == i
  {
    var n := Next(word, rules, 0);
    assert n <= i;
  }

  lemma LookupIfReturns(model: string, rules: seq<ModelRule>)
    requires AllReturn(rules)
    ensures Substitute(model, rules) == Lookup(model, rules)
  {
    SubstituteIsLookupExactlyWhen(model, rules);
    var i := Next(model, rules, 0);
    assert i < |rules| ==> IsFirst(rules, i);
  }

  /** In particular when no rule feeds a later one. */
  lemma SubstituteIsLookup(model: string, rules: seq<ModelRule>)
    requires NoChain(rules)
    ensures Substitute(model, rules) == Lookup(model, rules)
  {
    SubstituteIsLookupExactlyWhen(model, rules);
  }

  /** A rule that feeds the next one makes a difference, and one that feeds a rule that changes
      nothing makes none. */
  lemma ChainedSubstitution()
    ensures var rules := [ModelRule("a", "b"), ModelRule("b", "c")];
            Substitute("a", rules) == "c" && Lookup("a", rules) == "b"
    ensures var rules := [ModelRule("a", "b"), ModelRule("b", "b")];
            !NoChain(rules) && IsAlwaysLookup(rules)
  {
    var feeding := [ModelRule("a", "b"), ModelRule("b", "c")];
    SubstituteHead("a", feeding);
    SubstituteHead("b", feeding[1..]);
    assert feeding[1..][1..] == [];
    var harmless := [ModelRule("a", "b"), ModelRule("b", "b")];
    assert harmless[0].replacement == harmless[1].orig;
    SubstituteIsLookupForAll(harmless);
  }

  lemma {:induction false} LookupFinds(model: string, rules: seq<ModelRule>)
    ensures Lookup(model, rules) == model ||
            exists i :: 0 <= i < |rules| && rules[i].orig == model && Lookup(model, rules) == rules[i].replacement
    ensures (forall i | 0 <= i < |rules| :: rules[i].orig != model) ==> Lookup(model, rules) == model
  {
    if rules != [] && rules[0].orig != model {
      LookupFinds(model, rules[1..]);
      if Lookup(model, rules) != model {
        var i :| 0 <= i < |rules[1..]| && rules[1..][i].orig == model
                 && Lookup(model, rules[1..]) == rules[1..][i].replacement;
        assert rules[i + 1] == rules[1..][i];
      }
      assert forall i | 0 <= i < |rules| - 1 :: rules[1..][i] == rules[i + 1];
    }
  }

  /** Substituting in a substituted model changes nothing. */
  lemma SubstituteIsIdempotent(model: string, rules: seq<ModelRule>)
    requires NoCycle(rules)
    ensures Substitute(Substitute(model, rules), rules) == Substitute(model, rules)
  {
    SubstituteIsLookup(model, rules);
    var once := Lookup(model, rules);
    SubstituteIsLookup(once, rules);
    LookupFinds(model, rules);
    if once != model {
      var i :| 0 <= i < |rules| && rules[i].orig == model && once == rules[i].replacement;
      assert forall j | 0 <= j < |rules| && rules[j].orig == once :: j == i;
      LookupFinds(once, rules);
    }
  }

  // ---------------------------------------------------------------- requests

  function RewriteMessage(m: Message, rules: seq<Rule>): Message {
    if m.User? && m.text.Some? then m.(text := Some(Fold(m.text.value, rules))) else m
  }

  function RewriteMessages(messages: seq<Message>, rules: seq<Rule>): (result: seq<Message>)
    ensures |result| == |messages|
    ensures forall i | 0 <= i < |messages| :: result[i] == RewriteMessage(messages[i], rules)
  {
    seq(|messages|, i requires 0 <= i < |messages| => RewriteMessage(messages[i], rules))
  }

  function RewriteChat(chat: Chat, policy: RequestPolicy): Chat {
    chat.(model := Substitute(chat.model, policy.modelReplace),
          messages := RewriteMessages(chat.messages, policy.userPromptReplace))
  }

  /** A request's body, as what reading it would yield. */
  datatype Body = ChatBody(chat: Chat) | OtherBody(bytes: seq<char>) | Drained

  /** The model that the rules make of a model: the last replacement on the trail of its first rule. */
  function ModelFor(model: string, rules: seq<ModelRule>): string {
    var i := Next(model, rules, 0);
    if i == |rules| then model else rules[Trail(rules, i)].replacement
  }

  /** What openAIRequest makes of a chat: the model is the one its rules lead to, the string of each user
      message is what the replacements in their order make of it, and nothing else changes. */
  predicate IsRewriting(chat: Chat, policy: RequestPolicy, chat': Chat) {
    && chat'.model == ModelFor(chat.model, policy.modelReplace)
    && chat'.other == chat.other && |chat'.messages| == |chat.messages|
    && forall i | 0 <= i < |chat.messages| ::
         IsRewrittenMessage(chat.messages[i], policy.userPromptReplace, chat'.messages[i])
  }

  predicate IsRewrittenMessage(m: Message, rules: seq<Rule>, m': Message) {
    if m.User? && m.text.Some? then m' == User(Some(Fold(m.text.value, rules)), m.other) else m' == m
  }

  lemma RewriteChatIs(chat: Chat, policy: RequestPolicy)
    ensures IsRewriting(chat, policy, RewriteChat(chat, policy))
  {
    SubstituteFollowsTrail(chat.model, policy.modelReplace, 0);
    assert policy.modelReplace[0..] == policy.modelReplace;
  }

  /** The request under way: openAIRequest works on it in place. */
  class HttpRequest {
    var body: Body
    var contentLength: nat

    constructor (body: Body, contentLength: nat)
      ensures this.body == body && this.contentLength == contentLength
    {
      this.body, this.contentLength := body, contentLength;
    }

    /** io.ReadAll: nothing is left to read afterwards. */
    method ReadAll() returns (content: Body)
      modifies `body
      ensures content == old(body) && body == Drained
    {
      content := body;
      body := Drained;
    }
  }

  datatype Verdict = ParseError | Blocked | Pass

  /** openAIRequest. Only a request that passes has a body to read again. */
  method OpenAIRequest(policy: RequestPolicy, req: HttpRequest, length: Chat -> nat) returns (verdict: Verdict)
    modifies req
    ensures verdict == ParseError <==> !old(req.body).ChatBody?
    ensures verdict == Blocked <==> old(req.body).ChatBody? && policy.block
    ensures verdict == Pass ==> req.body.ChatBody? && IsRewriting(old(req.body).chat, policy, req.body.chat)
                                && req.contentLength == length(req.body.chat)
    ensures verdict != Pass ==> req.body == Drained && req.contentLength == old(req.contentLength)
  {
    var body := req.ReadAll();
    if !body.ChatBody? {
      return ParseError;
    }
    if policy.block {
      return Blocked;
    }
    var chat := body.chat;
    var model := ReplaceModel(chat.model, policy.modelReplace);
    var messages := chat.messages;
    for x := 0 to |messages|
      invariant |messages| == |chat.messages|
      invariant forall i | 0 <= i < x :: messages[i] == RewriteMessage(chat.messages[i], policy.userPromptReplace)
      invariant forall i | x <= i < |messages| :: messages[i] == chat.messages[i]
    {
      if messages[x].User? && messages[x].text.Some? {
        var content := ReplaceWords(messages[x].text.value, policy.userPromptReplace);
        messages := messages[x := messages[x].(text := Some(content))];
      }
    }
    assert messages == RewriteMessages(chat.messages, policy.userPromptReplace);
    RewriteChatIs(chat, policy);
    chat := chat.(model := model, messages := messages);
    req.contentLength := length(chat);
    req.body := ChatBody(chat);
    verdict := Pass;
  }

  method ReplaceModel(original: string, rules: seq<ModelRule>) returns (model: string)
    ensures model == Substitute(original, rules)
  {
    model := original;
    for x := 0 to |rules|
      invariant model == Substitute(original, rules[..x])
    {
      assert rules[..x + 1][..x] == rules[..x];
      if model == rules[x].orig {
        model := rules[x].replacement;
      }
    }
    assert rules[..|rules|] == rules;
  }

  method ReplaceWords(original: string, rules: seq<Rule>) returns (content: string)
    ensures content == Fold(original, rules)
  {
    content := original;
    for y := 0 to |rules|
      invariant content == Fold(original, rules[..y])
    {
      assert rules[..y + 1][..y] == rules[..y];
      content := ReplaceAll(content, rules[y].orig, rules[y].replacement);
    }
    assert rules[..|rules|] == rules;
  }

  /** Only the model and the strings of user messages differ. */
  predicate OnlyPromptsDiffer(chat: Chat, chat': Chat) {
    && chat'.other == chat.other && |chat'.messages| == |chat.messages|
    && forall i | 0 <= i < |chat.messages| :: OnlyPromptDiffers(chat.messages[i], chat'.messages[i])
  }

  predicate OnlyPromptDiffers(m: Message, m': Message) {
    m' == m || (m.User? && m.text.Some? && m'.User? && m'.text.Some? && m'.other == m.other)
  }

  /** No configured word is left in any user string. */
  predicate IsFreeOfWords(chat: Chat, rules: seq<Rule>) {
    forall i, j | 0 <= i < |chat.messages| && chat.messages[i].User? && chat.messages[i].text.Some?
                  && 0 <= j < |rules| ::
      !Contains(chat.messages[i].text.value, rules[j].orig)
  }

  /** There is just one rewriting. */
  lemma RewritingIsUnique(chat: Chat, policy: RequestPolicy, chat': Chat)
    requires IsRewriting(chat, policy, chat')
    ensures chat' == RewriteChat(chat, policy)
  {
    RewriteChatIs(chat, policy);
    assert chat'.messages == RewriteChat(chat, policy).messages;
  }

  /** In it only the model and the strings of user messages may differ; and with separated rules no
      configured word is left in any of them, so that the same policy has nothing more to do. */
  lemma RewrittenChat(chat: Chat, policy: RequestPolicy, chat': Chat)
    requires IsRewriting(chat, policy, chat')
    ensures && OnlyPromptsDiffer(chat, chat')
            && (Separated(policy.userPromptReplace) ==> IsFreeOfWords(chat', policy.userPromptReplace))
            && (Separated(policy.userPromptReplace) && NoCycle(policy.modelReplace) ==>
                  IsRewriting(chat', policy, chat'))
  {
    var rules := policy.userPromptReplace;
    RewritingIsUnique(chat, policy, chat');
    if Separated(rules) {
      forall i | 0 <= i < |chat.messages| && chat.messages[i].User? && chat.messages[i].text.Some?
        ensures chat'.messages[i].text.Some?
        ensures forall j | 0 <= j < |rules| :: !Contains(chat'.messages[i].text.value, rules[j].orig)
        ensures RewriteMessage(chat'.messages[i], rules) == chat'.messages[i]
      {
        FoldRemovesWords(chat.messages[i].text.value, rules);
        FoldIsIdempotent(chat.messages[i].text.value, rules);
      }
      if NoCycle(policy.modelReplace) {
        SubstituteIsIdempotent(chat.model, policy.modelReplace);
        assert RewriteMessages(chat'.messages, rules) == chat'.messages;
        RewriteChatIs(chat', policy);
      }
    }
  }

  // ---------------------------------------------------------------- the request pump

  /** One turn of the loop: what http.ReadRequest returned, and the policy at that moment. */
  datatype Arrival =
    | Received(body: Body, contentLength: nat, policy: Option<RequestPolicy>)
    | BadRequest
    | EndOfInput

  datatype Sent = Sent(body: Body, contentLength: nat)

  /** A request that no policy judges, or that one lets through. */
  predicate Passes(a: Arrival) {
    a.Received? && (a.policy.None? || (a.body.ChatBody? && !a.policy.value.block))
  }

  predicate IsRefused(a: Arrival) {
    a.Received? && a.policy.Some? && a.body.ChatBody? && a.policy.value.block
  }

  predicate IsDropped(a: Arrival) {
    a.BadRequest? || (a.Received? && a.policy.Some? && !a.body.ChatBody?)
  }

  /** What is sent on for a request that passes: without a policy the request itself; with one, its
      rewriting, which differs from it in the model and the user strings only. */
  predicate IsForwardOf(sent: Sent, a: Arrival, length: Chat -> nat)
    requires Passes(a)
  {
    if a.policy.None? then sent == Sent(a.body, a.contentLength)
    else
      && sent.body.ChatBody? && IsRewriting(a.body.chat, a.policy.value, sent.body.chat)
      && sent.contentLength == length(sent.body.chat)
  }

  /** The arrivals before the end of input. */
  function Reads(arrivals: seq<Arrival>): (taken: seq<Arrival>)
    ensures taken <= arrivals && forall i | 0 <= i < |taken| :: !taken[i].EndOfInput?
    ensures |taken| < |arrivals| ==> arrivals[|taken|].EndOfInput?
  {
    if arrivals == [] || arrivals[0].EndOfInput? then [] else [arrivals[0]] + Reads(arrivals[1..])
  }

  /** What became of a request. */
  datatype Outcome = Forwarded(sent: Sent) | Refused | Dropped

  /** What goes to the destination, and how many replies to the client. */
  function Sends(outcome: Outcome): seq<Sent> {
    if outcome.Forwarded? then [outcome.sent] else []
  }

  function Replies(outcome: Outcome): nat {
    if outcome.Refused? then 1 else 0
  }

  predicate IsOutcome(outcome: Outcome, a: Arrival, length: Chat -> nat) {
    match outcome
    case Forwarded(sent) => Passes(a) && IsForwardOf(sent, a, length)
    case Refused => IsRefused(a)
    case Dropped => IsDropped(a)
  }

  /** One turn of the loop. */
  method HandleRequest(a: Arrival, length: Chat -> nat) returns (outcome: Outcome)
    requires !a.EndOfInput?
    ensures IsOutcome(outcome, a, length)
  {
    if a.BadRequest? {
      return Dropped;
    }
    var req := new HttpRequest(a.body, a.contentLength);
    if a.policy.Some? {
      var verdict := OpenAIRequest(a.policy.value, req, length);
      if verdict == ParseError {
        return Dropped;
      }
      if verdict == Blocked {
        return Refused;
      }
    }
    outcome := Forwarded(Sent(req.body, req.contentLength));
  }

  /** Which of the requests read were forwarded, refused, dropped. */
  datatype Log = Log(forwarded: seq<nat>, refused: seq<nat>, dropped: seq<nat>)

  function Entered(log: Log, x: nat, outcome: Outcome): Log {
    match outcome
    case Forwarded(_) => log.(forwarded := log.forwarded + [x])
    case Refused => log.(refused := log.refused + [x])
    case Dropped => log.(dropped := log.dropped + [x])
  }

  ghost predicate AreForwards(forwarded: seq<Sent>, at: seq<nat>, taken: seq<Arrival>, length: Chat -> nat) {
    && |forwarded| == |at|
    && forall k | 0 <= k < |at| ::
         at[k] < |taken| && Passes(taken[at[k]]) && IsForwardOf(forwarded[k], taken[at[k]], length)
  }

  ghost predicate IsLog(log: Log, taken: seq<Arrival>) {
    && Selects(log.forwarded, taken, Passes)
    && Selects(log.refused, taken, IsRefused)
    && Selects(log.dropped, taken, IsDropped)
    && |log.forwarded| + |log.refused| + |log.dropped| == |taken|
  }

  lemma LogMore(log: Log, taken: seq<Arrival>, a: Arrival, outcome: Outcome, length: Chat -> nat)
    requires IsLog(log, taken) && IsOutcome(outcome, a, length)
    ensures IsLog(Entered(log, |taken|, outcome), taken + [a])
  {
    SelectsMore(log.forwarded, taken, a, Passes);
    SelectsMore(log.refused, taken, a, IsRefused);
    SelectsMore(log.dropped, taken, a, IsDropped);
  }

  lemma ForwardsMore(forwarded: seq<Sent>, log: Log, taken: seq<Arrival>, a: Arrival, outcome: Outcome,
                     length: Chat -> nat)
    requires AreForwards(forwarded, log.forwarded, taken, length) && IsOutcome(outcome, a, length)
    ensures AreForwards(forwarded + Sends(outcome), Entered(log, |taken|, outcome).forwarded, taken + [a], length)
  {
    assert !outcome.Forwarded? ==> forwarded + Sends(outcome) == forwarded;
  }

  ghost predicate Progress(seen: seq<Arrival>, forwarded: seq<Sent>, refusals: nat, log: Log, length: Chat -> nat) {
    && IsLog(log, seen)
    && AreForwards(forwarded, log.forwarded, seen, length) && refusals == |log.refused|
  }

  /** The requests read were forwarded, refused or dropped, each of them, and only one of these: those
      that pass are forwarded, one for one and in order of arrival; those that parse under a blocking
      policy are refused; those that do not parse are dropped. */
  ghost predicate IsPumped(forwarded: seq<Sent>, refusals: nat, taken: seq<Arrival>, length: Chat -> nat) {
    exists log :: Progress(taken, forwarded, refusals, log, length)
  }

  /** The first goroutine of Http_gateway, over requests that arrive one at a time; `refusals`
      counts the replies written back to the client. */
  method RequestPump(arrivals: seq<Arrival>, length: Chat -> nat) returns (forwarded: seq<Sent>, refusals: nat)
    ensures IsPumped(forwarded, refusals, Reads(arrivals), length)
  {
    forwarded, refusals := [], 0;
    PumpNothing(length);
    ghost var seen: seq<Arrival> := [];
    var x := 0;
    while x < |arrivals| && !arrivals[x].EndOfInput?
      invariant x <= |arrivals| && seen == arrivals[..x] && forall i | 0 <= i < x :: !arrivals[i].EndOfInput?
      invariant IsPumped(forwarded, refusals, seen, length)
    {
      var outcome := HandleRequest(arrivals[x], length);
      PumpMore(seen, forwarded, refusals, arrivals[x], outcome, length);
      forwarded, refusals := forwarded + Sends(outcome), refusals + Replies(outcome);
      seen := seen + [arrivals[x]];
      x := x + 1;
    }
    ReadsUpTo(arrivals, x);
  }

  lemma PumpNothing(length: Chat -> nat)
    ensures IsPumped([], 0, [], length)
  {
    assert Progress([], [], 0, Log([], [], []), length);
  }

  lemma PumpMore(seen: seq<Arrival>, forwarded: seq<Sent>, refusals: nat, a: Arrival, outcome: Outcome,
                 length: Chat -> nat)
    requires IsPumped(forwarded, refusals, seen, length) && IsOutcome(outcome, a, length)
    ensures IsPumped(forwarded + Sends(outcome), refusals + Replies(outcome), seen + [a], length)
  {
    var log :| Progress(seen, forwarded, refusals, log, length);
    LogMore(log, seen, a, outcome, length);
    ForwardsMore(forwarded, log, seen, a, outcome, length);
    var log' := Entered(log, |seen|, outcome);
    assert Progress(seen + [a], forwarded + Sends(outcome), refusals + Replies(outcome), log', length);
  }

  lemma {:induction false} ReadsUpTo(arrivals: seq<Arrival>, x: nat)
    requires x <= |arrivals| && forall i | 0 <= i < x :: !arrivals[i].EndOfInput?
    requires x < |arrivals| ==> arrivals[x].EndOfInput?
    ensures Reads(arrivals) == arrivals[..x]
  {
    if x > 0 {
      ReadsUpTo(arrivals[1..], x - 1);
    }
  }

  /** This determines what is sent, in which order, and how many replies there are. */
  lemma PumpIsDetermined(taken: seq<Arrival>, length: Chat -> nat, f1: seq<Sent>, r1: nat, f2: seq<Sent>, r2: nat)
    requires IsPumped(f1, r1, taken, length) && IsPumped(f2, r2, taken, length)
    ensures f1 == f2 && r1 == r2
  {
    var log1 :| Progress(taken, f1, r1, log1, length);
    var log2 :| Progress(taken, f2, r2, log2, length);
    SelectionIsUnique(log1.forwarded, log2.forwarded, taken, Passes);
    SelectionIsUnique(log1.refused, log2.refused, taken, IsRefused);
    forall k | 0 <= k < |f1|
      ensures f1[k] == f2[k]
    {
      var a := taken[log1.forwarded[k]];
      assert IsForwardOf(f1[k], a, length) && IsForwardOf(f2[k], a, length);
      if a.policy.Some? {
        RewritingIsUnique(a.body.chat, a.policy.value, f1[k].body.chat);
        RewritingIsUnique(a.body.chat, a.policy.value, f2[k].body.chat);
      }
    }
  }

  /** One request by itself: one that does not parse as HTTP is dropped, without a policy it is sent on as
      it is, one that is no chat is dropped, one under a blocking policy is answered, and any other is
      sent on with its model and its user strings rewritten. */
  lemma OneRequest(a: Arrival, length: Chat -> nat, forwarded: seq<Sent>, refusals: nat)
    requires !a.EndOfInput? && IsPumped(forwarded, refusals, [a], length)
    ensures a.BadRequest? ==> forwarded == [] && refusals == 0
    ensures a.Received? && a.policy.None? ==> forwarded == [Sent(a.body, a.contentLength)] && refusals == 0
    ensures a.Received? && a.policy.Some? && !a.body.ChatBody? ==> forwarded == [] && refusals == 0
    ensures a.Received? && a.policy.Some? && a.body.ChatBody? && a.policy.value.block ==>
              forwarded == [] && refusals == 1
    ensures a.Received? && a.policy.Some? && a.body.ChatBody? && !a.policy.value.block ==>
              && refusals == 0 && |forwarded| == 1 && forwarded[0].body.ChatBody?
              && IsRewriting(a.body.chat, a.policy.value, forwarded[0].body.chat)
              && forwarded[0].contentLength == length(forwarded[0].body.chat)
  {
    var log :| Progress([a], forwarded, refusals, log, length);
    OnlyOne(log.forwarded, a, Passes);
    OnlyOne(log.refused, a, IsRefused);
  }

  lemma OnlyOne(at: seq<nat>, a: Arrival, chosen: Arrival -> bool)
    requires Selects(at, [a], chosen)
    ensures at == if chosen(a) then [0] else []
  {
    var none: seq<nat> := [];
    SelectsMore(none, [], a, chosen);
    assert [] + [a] == [a];
    SelectionIsUnique(at, if chosen(a) then none + [0] else none, [a], chosen);
  }

  /** While the policy blocks, nothing reaches the destination, and whatever parses is answered. */
  lemma BlockedForwardsNothing(taken: seq<Arrival>, length: Chat -> nat, forwarded: seq<Sent>, refusals: nat)
    requires IsPumped(forwarded, refusals, taken, length)
    requires forall i | 0 <= i < |taken| && taken[i].Received? :: taken[i].policy.Some? && taken[i].policy.value.block
    ensures forwarded == []
    ensures (forall i | 0 <= i < |taken| :: taken[i].Received? && taken[i].body.ChatBody?) ==> refusals == |taken|
  {
    var log :| Progress(taken, forwarded, refusals, log, length);
    NothingSelected(log.forwarded, taken, Passes);
    if forall i | 0 <= i < |taken| :: taken[i].Received? && taken[i].body.ChatBody? {
      NothingSelected(log.dropped, taken, IsDropped);
    }
  }

  // ---------------------------------------------------------------- responses

  datatype Choice = Choice(content: string, other: nat)
  datatype Completion = Completion(choices: seq<Choice>, other: nat)

  const REFUSED := [Choice(REFUSAL, 0)]

  predicate Banned(content: string, bannedWords: seq<string>) {
    exists y :: 0 <= y < |bannedWords| && Contains(content, bannedWords[y])
  }

  predicate Blocks(choices: seq<Choice>, bannedWords: seq<string>) {
    exists x :: 0 <= x < |choices| && Banned(choices[x].content, bannedWords)
  }

  /** A response; its body is drained, None, once it has been read. */
  class HttpResponse {
    var body: Option<Completion>
    var contentLength: nat

    constructor (body: Option<Completion>, contentLength: nat)
      ensures this.body == body && this.contentLength == contentLength
    {
      this.body, this.contentLength := body, contentLength;
    }
  }

  /** openAIResponse, on what was read of a body; None if it does not parse, which leaves the response
      as it is. Otherwise it blocks exactly when some choice has some banned word, and the declared
      length is always that of the new body. */
  method OpenAIResponse(content: Option<Completion>, bannedWords: seq<string>, res: HttpResponse,
                        length: Completion -> nat) returns (block: bool, parsed: bool)
    modifies res
    ensures parsed <==> content.Some?
    ensures block <==> parsed && Blocks(content.value.choices, bannedWords)
    ensures parsed && !block ==> res.body == content
    ensures block ==> res.body == Some(content.value.(choices := [Choice("kube-gateway says no", 0)]))
    ensures parsed ==> res.body == Some(Filter(content.value, bannedWords))
    ensures parsed ==> res.contentLength == length(res.body.value)
    ensures !parsed ==> unchanged(res)
  {
    block, parsed := false, content.Some?;
    if !parsed {
      return;
    }
    var chat := content.value;
    for x := 0 to |chat.choices|
      invariant block <==> Blocks(chat.choices[..x], bannedWords)
    {
      assert chat.choices[..x + 1] == chat.choices[..x] + [chat.choices[x]];
      BlocksOneMore(chat.choices[..x], chat.choices[x], bannedWords);
      ghost var before := block;
      for y := 0 to |bannedWords|
        invariant block <==> before || Banned(chat.choices[x].content, bannedWords[..y])
      {
        BannedOneMore(chat.choices[x].content, bannedWords, y);
        if Contains(chat.choices[x].content, bannedWords[y]) {
          block := true;
        }
      }
      assert bannedWords[..|bannedWords|] == bannedWords;
    }
    assert chat.choices[..|chat.choices|] == chat.choices;
    if block {
      chat := chat.(choices := REFUSED);
    }
    res.contentLength := length(chat);
    res.body := Some(chat);
  }

  function Filter(c: Completion, bannedWords: seq<string>): Completion {
    if Blocks(c.choices, bannedWords) then c.(choices := REFUSED) else c
  }

  lemma BlocksOneMore(choices: seq<Choice>, c: Choice, bannedWords: seq<string>)
    ensures Blocks(choices + [c], bannedWords) <==> Blocks(choices, bannedWords) || Banned(c.content, bannedWords)
  {
    assert (choices + [c])[|choices|] == c;
    assert forall x | 0 <= x < |choices| :: (choices + [c])[x] == choices[x];
  }

  lemma BannedOneMore(content: string, bannedWords: seq<string>, y: nat)
    requires y < |bannedWords|
    ensures Banned(content, bannedWords[..y + 1]) <==>
            Banned(content, bannedWords[..y]) || Contains(content, bannedWords[y])
  {
    assert forall k | 0 <= k < y :: bannedWords[..y + 1][k] == bannedWords[..y][k];
    assert bannedWords[..y + 1][y] == bannedWords[y];
  }

  /** A response is blocked exactly when the content of some choice is some text around some banned word. */
  lemma BlocksExactlyWhen(choices: seq<Choice>, bannedWords: seq<string>)
    ensures Blocks(choices, bannedWords) <==>
            exists x, y, pre, post ::
              && 0 <= x < |choices| && 0 <= y < |bannedWords|
              && choices[x].content == pre + bannedWords[y] + post
  {
    forall x, y | 0 <= x < |choices| && 0 <= y < |bannedWords|
      ensures Contains(choices[x].content, bannedWords[y]) <==>
              exists pre, post :: choices[x].content == pre + bannedWords[y] + post
    {
      ContainsExactlyWhen(choices[x].content, bannedWords[y]);
    }
  }

  /** What passes the filter is free of banned words exactly when nothing was blocked or the refusal
      itself is free of them; filtering again changes nothing, in any case. */
  lemma FilterIsExact(c: Completion, bannedWords: seq<string>)
    ensures !Blocks(Filter(c, bannedWords).choices, bannedWords) <==>
            !Blocks(c.choices, bannedWords) || !Banned("kube-gateway says no", bannedWords)
    ensures !Blocks(c.choices, bannedWords) ==> Filter(c, bannedWords) == c
    ensures Blocks(c.choices, bannedWords) ==>
              Filter(c, bannedWords) == c.(choices := [Choice("kube-gateway says no", 0)])
    ensures Filter(Filter(c, bannedWords), bannedWords) == Filter(c, bannedWords)
  {
    assert REFUSED[0].content == REFUSAL;
  }
}
