/**
  `handle_message` (api/index.py lines 80-105) as a pure step over the
  process state: the global activation flag `working_status` (line 31) and
  the `user_sessions` dictionary (line 56).

  The completion endpoint is an oracle parameter; delivering the reply
  (`send_line_reply`) is left to the caller, who receives it as `Some(text)`.
 */
module Handler {
  import opened Wrappers
  import opened Chat
  import opened Window
  import opened Completion
  import opened Session
  import Text

  datatype State = State(working: bool, sessions: Sessions)

  /** The fields of a LINE message event the handler reads. */
  datatype Event = Event(messageType: string, userId: UserId, text: string)

  /** The new state and the reply to send, if any. */
  datatype Outcome = Outcome(state: State, reply: Option<string>)

  const ActivateCommand: string := "啟動"
  const DeactivateCommand: string := "安靜"
  const ActivateReply: string := "我是時下流行的 AI 智能，目前可以為您服務囉，歡迎來跟我互動~"
  const DeactivateReply: string := "感謝您的使用，若需要我的服務，請跟我說 「啟動」 謝謝~"

  predicate IsCommand(text: string) {
    text == ActivateCommand || text == DeactivateCommand
  }

  /** Process start: the flag from `DEFAULT_TALKING`, no sessions yet. */
  function Init(defaultTalking: bool): (s: State)
    ensures s.working == defaultTalking
    ensures s.sessions == map[]
    ensures Valid(s)
  {
    State(defaultTalking, map[])
  }

  /** One inbound event. */
  function Step(s: State, ev: Event, oracle: Oracle): (o: Outcome)
    // no reply means nothing changed
    ensures o.reply.None? ==> o.state == s
    // the flag only moves on a reserved command
    ensures o.state.working != s.working ==> IsCommand(Text.Strip(ev.text))
    // no user disappears and no other user's history changes
    ensures s.sessions.Keys <= o.state.sessions.Keys <= s.sessions.Keys + {ev.userId}
    ensures forall u :: u in s.sessions && u != ev.userId ==> o.state.sessions[u] == s.sessions[u]
    // only an event that reaches the completion endpoint touches the sessions, and it always replies
    ensures !Dispatched(s, ev) ==> o.state.sessions == s.sessions
    ensures Dispatched(s, ev) ==> o.reply.Some? && o.state.working
  {
    if ev.messageType != "text" then
      Outcome(s, None)
    else
      var text := Text.Strip(ev.text);
      if text == ActivateCommand then
        Outcome(s.(working := true), Some(ActivateReply))
      else if text == DeactivateCommand then
        Outcome(s.(working := false), Some(DeactivateReply))
      else if s.working then
        var x := Respond(s.sessions, ev.userId, text, oracle);
        Outcome(s.(sessions := x.sessions), Some(x.reply))
      else
        Outcome(s, None)
  }

  /**
    What holds of every stored history between events: it starts with the
    directive and has between 3 and `Size + 2` entries.
   */
  predicate Valid(s: State) {
    forall u :: u in s.sessions ==>
      && 3 <= |s.sessions[u]| <= Size + 2
      && s.sessions[u][0] == Directive
  }

  /** A text event that reaches the completion endpoint. */
  predicate Dispatched(s: State, ev: Event) {
    ev.messageType == "text" && !IsCommand(Text.Strip(ev.text)) && s.working
  }

  /**
    `"啟動"` sets the flag and acknowledges, whatever the state; the sessions
    are unchanged and the oracle is not consulted.
   */
  lemma StepActivate(s: State, ev: Event, oracle: Oracle, other: Oracle)
    requires ev.messageType == "text" && Text.Strip(ev.text) == ActivateCommand
    ensures Step(s, ev, oracle) == Outcome(State(true, s.sessions), Some(ActivateReply))
    ensures Step(s, ev, oracle) == Step(s, ev, other)
  {
  }

  /**
    `"安靜"` clears the flag and acknowledges, whatever the state; the
    sessions are unchanged and the oracle is not consulted.
   */
  lemma StepDeactivate(s: State, ev: Event, oracle: Oracle, other: Oracle)
    requires ev.messageType == "text" && Text.Strip(ev.text) == DeactivateCommand
    ensures Step(s, ev, oracle) == Outcome(State(false, s.sessions), Some(DeactivateReply))
    ensures Step(s, ev, oracle) == Step(s, ev, other)
  {
    assert ActivateCommand[0] != DeactivateCommand[0];
  }

  /** Sending the same command twice: the second leaves the state as the first left it, with the same reply. */
  lemma CommandIdempotent(s: State, ev: Event, o1: Oracle, o2: Oracle)
    requires ev.messageType == "text" && IsCommand(Text.Strip(ev.text))
    ensures var first := Step(s, ev, o1);
            var second := Step(first.state, ev, o2);
            second == first && first.reply.Some?
  {
    if Text.Strip(ev.text) == ActivateCommand {
      StepActivate(s, ev, o1, o2);
    } else {
      StepDeactivate(s, ev, o1, o2);
    }
  }

  /** While inactive, any other text is dropped: no reply, nothing changes. */
  lemma StepSilentWhenInactive(s: State, ev: Event, oracle: Oracle)
    requires !s.working && !IsCommand(Text.Strip(ev.text))
    ensures Step(s, ev, oracle) == Outcome(s, None)
  {
  }

  /** A non-text event is ignored. */
  lemma StepIgnoresNonText(s: State, ev: Event, oracle: Oracle)
    requires ev.messageType != "text"
    ensures Step(s, ev, oracle) == Outcome(s, None)
  {
  }

  /**
    A dispatched event submits the windowed history and replies with the
    stripped completion, or with the prefixed error text; only the sender's
    history changes, and the flag stays set.
   */
  lemma StepDispatched(s: State, ev: Event, oracle: Oracle)
    requires Dispatched(s, ev)
    ensures var text := Text.Strip(ev.text);
            var h := Submitted(s.sessions, ev.userId, text);
            var o := Step(s, ev, oracle);
            && o.state.working
            && o.state.sessions == s.sessions[ev.userId := o.state.sessions[ev.userId]]
            && (oracle(h).Ok? ==>
                  && o.reply == Some(Text.Strip(oracle(h).content))
                  && o.state.sessions[ev.userId] == h + [Message(Assistant, Text.Strip(oracle(h).content))])
            && (oracle(h).Err? ==>
                  && o.reply == Some(ErrorReply(oracle(h).kind, oracle(h).message))
                  && o.state.sessions[ev.userId] == h)
  {
    var x := Respond(s.sessions, ev.userId, Text.Strip(ev.text), oracle);
    assert x.sessions == s.sessions[ev.userId := x.sessions[ev.userId]];
  }

  /** Every step keeps each stored history starting with the directive and within bounds. */
  lemma {:induction false} StepPreservesValid(s: State, ev: Event, oracle: Oracle)
    requires Valid(s)
    ensures Valid(Step(s, ev, oracle).state)
  {
    if Dispatched(s, ev) {
      var user := ev.userId;
      var text := Text.Strip(ev.text);
      var h := Submitted(s.sessions, user, text);
      var pre := Opening(s.sessions, user) + [Message(User, text)];
      assert 2 <= |pre| && pre[0] == Directive;
      assert 3 <= |h| <= Size + 1 && h[0] == Directive;
      StepDispatched(s, ev, oracle);
      var t := Step(s, ev, oracle).state;
      assert t.sessions[user] == h || t.sessions[user] == h + [Message(Assistant, Text.Strip(oracle(h).content))];
      forall u | u in t.sessions
        ensures 3 <= |t.sessions[u]| <= Size + 2 && t.sessions[u][0] == Directive
      {
        if u != user {
          assert t.sessions[u] == s.sessions[u];
        }
      }
    }
  }

  /** The state after a sequence of events, each answered by its own oracle. */
  function Run(s: State, turns: seq<(Event, Oracle)>): (t: State)
    decreases |turns|
  {
    if turns == [] then s else Run(Step(s, turns[0].0, turns[0].1).state, turns[1..])
  }

  /** From process start, every reachable state is valid. */
  lemma {:induction false} RunPreservesValid(s: State, turns: seq<(Event, Oracle)>)
    requires Valid(s)
    ensures Valid(Run(s, turns))
    decreases |turns|
  {
    if turns != [] {
      StepPreservesValid(s, turns[0].0, turns[0].1);
      RunPreservesValid(Step(s, turns[0].0, turns[0].1).state, turns[1..]);
    }
  }

  /** Every reachable state is valid, so every submitted list has between 3 and `Size + 1` entries. */
  lemma {:induction false} ReachableSubmittedBounded(defaultTalking: bool, turns: seq<(Event, Oracle)>, user: UserId, text: string)
    ensures var h := Submitted(Run(Init(defaultTalking), turns).sessions, user, text);
            3 <= |h| <= Size + 1 && h[0] == Directive
  {
    var s := Run(Init(defaultTalking), turns);
    RunPreservesValid(Init(defaultTalking), turns);
    var pre := Opening(s.sessions, user) + [Message(User, text)];
    assert 2 <= |pre| && pre[0] == Directive;
  }

  /**
    Two dispatched events from different users can be handled in either
    order: the final state is the same and each user gets the same reply.
   */
  lemma {:induction false} DistinctUsersCommute(s: State, e1: Event, o1: Oracle, e2: Event, o2: Oracle)
    requires e1.userId != e2.userId
    requires Dispatched(s, e1) && Dispatched(s, e2)
    ensures var a1 := Step(s, e1, o1);
            var a2 := Step(a1.state, e2, o2);
            var b2 := Step(s, e2, o2);
            var b1 := Step(b2.state, e1, o1);
            && a2.state == b1.state
            && a1.reply == b1.reply
            && a2.reply == b2.reply
  {
    var t1 := Text.Strip(e1.text);
    var t2 := Text.Strip(e2.text);
    RespondDistinctUsersCommute(s.sessions, e1.userId, t1, o1, e2.userId, t2, o2);
  }

  /** A first contact from a fresh process submits the text behind two copies of the directive. */
  lemma {:induction false} FirstContact(user: UserId, raw: string, oracle: Oracle)
    requires !IsCommand(Text.Strip(raw))
    ensures var s := Init(true);
            var ev := Event("text", user, raw);
            var h := [Directive, Directive, Message(User, Text.Strip(raw))];
            && Dispatched(s, ev)
            && Submitted(s.sessions, user, Text.Strip(raw)) == h
            && Step(s, ev, oracle).state == State(true, map[user := Stored(h, oracle(h))])
            && Step(s, ev, oracle).reply == Some(ReplyOf(oracle(h)))
  {
    var s := Init(true);
    var ev := Event("text", user, raw);
    var x := Respond(s.sessions, user, Text.Strip(raw), oracle);
    assert x.sessions == map[user := x.sessions[user]];
  }

  /**
    A successful first contact from a fresh process: the answer is recorded
    and returned with its surrounding whitespace stripped, behind two copies
    of the directive and the user entry.
   */
  lemma {:induction false} FirstContactSuccess(user: UserId, text: string, oracle: Oracle,
                                               pre: string, answer: string, post: string)
    requires Text.Trimmed(text) && !IsCommand(text)
    requires Text.AllSpace(pre) && Text.AllSpace(post) && Text.Trimmed(answer)
    requires oracle([Directive, Directive, Message(User, text)]) == Ok(pre + answer + post)
    ensures Step(Init(true), Event("text", user, text), oracle)
            == Outcome(State(true, map[user := [Directive, Directive, Message(User, text),
                                                 Message(Assistant, answer)]]),
                       Some(answer))
  {
    Text.StripOfTrimmed(text);
    Text.StripRecovers(pre, answer, post);
    FirstContact(user, text, oracle);
    var h := [Directive, Directive, Message(User, text)];
    assert ReplyOf(oracle(h)) == answer;
    assert Stored(h, oracle(h)) == h + [Message(Assistant, answer)];
    assert h + [Message(Assistant, answer)]
           == [Directive, Directive, Message(User, text), Message(Assistant, answer)];
  }

  /**
    A failed first contact from a fresh process: the reply is the kind's
    prefix and the message, and only the windowed user entry is stored.
   */
  lemma {:induction false} FirstContactFailure(user: UserId, text: string, oracle: Oracle,
                                               kind: ErrorKind, message: string)
    requires Text.Trimmed(text) && !IsCommand(text)
    requires oracle([Directive, Directive, Message(User, text)]) == Err(kind, message)
    ensures Step(Init(true), Event("text", user, text), oracle)
            == Outcome(State(true, map[user := [Directive, Directive, Message(User, text)]]),
                       Some(Prefix(kind) + message))
  {
    Text.StripOfTrimmed(text);
    FirstContact(user, text, oracle);
  }

  /**
    A dispatched event whose call fails with the provider error
    `rate limit exceeded` shows the user that text behind the provider prefix.
   */
  lemma RateLimitReply(s: State, ev: Event, oracle: Oracle)
    requires Dispatched(s, ev)
    requires oracle(Submitted(s.sessions, ev.userId, Text.Strip(ev.text)))
             == Err(ProviderError, "rate limit exceeded")
    ensures Step(s, ev, oracle).reply == Some("OpenAI API 錯誤: rate limit exceeded")
  {
    StepDispatched(s, ev, oracle);
    RateLimitText();
  }

  /**
    The second turn of a conversation whose first answer succeeded submits
    the directive three times: twice from the first turn's window, and once
    more because line 120 keeps a short history whole behind its first entry.
   */
  lemma {:induction false} SecondTurnRepeatsDirective(user: UserId, t1: string, t2: string, o1: Oracle, answer: string)
    requires Text.Trimmed(t1) && !IsCommand(t1) && Text.Trimmed(answer)
    requires o1([Directive, Directive, Message(User, t1)]) == Ok(answer)
    ensures var s := Step(Init(true), Event("text", user, t1), o1).state;
            var h := Submitted(s.sessions, user, t2);
            && h == [Directive, Directive, Directive, Message(User, t1), Message(Assistant, answer), Message(User, t2)]
            && !SystemOnlyInFront(h)
  {
    FirstContactSuccess(user, t1, o1, [], answer, []);
    assert [] + answer + [] == answer;
    var s := Step(Init(true), Event("text", user, t1), o1).state;
    SecondSubmissionRepeatsDirective(s.sessions, user, t1, answer, t2);
  }
}
