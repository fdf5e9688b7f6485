/**
  `get_ai_response` (api/index.py lines 107-139): the per-user history is
  seeded on first contact, the user entry is appended, the history is
  trimmed and submitted, and on success the stripped reply is recorded.

  Every mutation of the history happens before the completion call, so a
  failed call leaves the appended and trimmed history in place.
 */
module Session {
  import opened Chat
  import opened Window
  import opened Completion
  import Text

  type UserId = string

  /** The module-level `user_sessions` dictionary. */
  type Sessions = map<UserId, History>

  /**
    The result of one call: the updated sessions, the exact list handed to
    the completion endpoint, and the text to send back to the user.
   */
  datatype Exchange = Exchange(sessions: Sessions, submitted: History, reply: string)

  /** The history a turn builds on: the stored one, or the seed on first contact. */
  function Opening(sessions: Sessions, user: UserId): History {
    if user in sessions then sessions[user] else [Directive]
  }

  /**
    Lines 113-120: the list submitted to the completion endpoint, i.e. the
    opening history plus the user entry, windowed by `Trim`.
   */
  function Submitted(sessions: Sessions, user: UserId, text: string): (h: History)
    ensures |h| == 2 + Min(|Opening(sessions, user)|, Size - 1)
    ensures 0 < |h| <= Size + 1
    ensures h[|h| - 1] == Message(User, text)
    // first contact: the seed plus the message, windowed as written
    ensures user !in sessions ==> h == [Directive, Directive, Message(User, text)]
    // an existing history is never re-seeded
    ensures user in sessions && |sessions[user]| > 0 ==> h[0] == sessions[user][0]
  {
    var pre := Opening(sessions, user) + [Message(User, text)];
    assert user !in sessions ==> pre == [Directive, Message(User, text)];
    Trim(pre)
  }

  /** Lines 128-139: the text sent back to the user for an answer of the endpoint. */
  function ReplyOf(answer: Completion): string {
    match answer
    case Ok(content) => Text.Strip(content)
    case Err(kind, message) => ErrorReply(kind, message)
  }

  /** Lines 128-131: the history stored once the answer is in. */
  function Stored(submitted: History, answer: Completion): History {
    match answer
    case Ok(content) => submitted + [Message(Assistant, Text.Strip(content))]
    case Err(_, _) => submitted
  }

  /**
    Lines 123-139 after the call: a success records one assistant entry and
    returns its text; a failure records nothing further and returns the
    prefixed error text.
   */
  function Record(sessions: Sessions, user: UserId, submitted: History, answer: Completion): (x: Exchange)
    ensures x.submitted == submitted
    ensures user in x.sessions
    ensures answer.Ok? ==>
              && x.reply == Text.Strip(answer.content)
              && x.sessions[user] == submitted + [Message(Assistant, x.reply)]
    ensures answer.Err? ==>
              && x.reply == ErrorReply(answer.kind, answer.message)
              && x.sessions[user] == submitted
    ensures x.sessions == sessions[user := x.sessions[user]]
  {
    Exchange(sessions[user := Stored(submitted, answer)], submitted, ReplyOf(answer))
  }

  /** One call of `get_ai_response`, with the completion endpoint as `oracle`. */
  function Respond(sessions: Sessions, user: UserId, text: string, oracle: Oracle): (x: Exchange)
    ensures x.submitted == Submitted(sessions, user, text)
    ensures user in x.sessions
    // success: one assistant entry with the stripped reply, which is also returned
    ensures oracle(x.submitted).Ok? ==>
              && x.reply == Text.Strip(oracle(x.submitted).content)
              && x.sessions[user] == x.submitted + [Message(Assistant, x.reply)]
    // failure: the prefixed message is returned and no assistant entry is recorded
    ensures oracle(x.submitted).Err? ==>
              && x.reply == ErrorReply(oracle(x.submitted).kind, oracle(x.submitted).message)
              && x.sessions[user] == x.submitted
    // only this user's history is touched
    ensures x.sessions.Keys == sessions.Keys + {user}
    ensures forall u :: u in sessions && u != user ==> x.sessions[u] == sessions[u]
  {
    var submitted := Submitted(sessions, user, text);
    var answer := oracle(submitted);
    Record(sessions, user, submitted, answer)
  }

  /** The submitted list depends on the sessions only through the user's opening history. */
  lemma SubmittedDependsOnlyOnOpening(s1: Sessions, s2: Sessions, user: UserId, text: string)
    requires Opening(s1, user) == Opening(s2, user)
    ensures Submitted(s1, user, text) == Submitted(s2, user, text)
  {
  }

  /**
    The submitted list is the opening history plus the user entry, windowed:
    its first entry, then its last `min(|pre|, Size)` entries.
   */
  lemma SubmittedIsWindow(sessions: Sessions, user: UserId, text: string)
    ensures var pre := Opening(sessions, user) + [Message(User, text)];
            var h := Submitted(sessions, user, text);
            h[0] == pre[0] && h[1..] == pre[|pre| - Min(|pre|, Size)..]
  {
    TrimKeepsSuffix(Opening(sessions, user) + [Message(User, text)]);
  }

  /**
    While a stored history has fewer than `Size` entries it is submitted
    whole, behind one more copy of its first entry.
   */
  lemma {:induction false} SubmittedShortHistory(sessions: Sessions, user: UserId, text: string)
    requires user in sessions && 0 < |sessions[user]| < Size
    ensures var h := sessions[user];
            Submitted(sessions, user, text) == [h[0]] + h + [Message(User, text)]
  {
    var h := sessions[user];
    var pre := h + [Message(User, text)];
    TrimShortDuplicatesFirst(pre);
    assert Submitted(sessions, user, text) == Trim(pre);
  }

  /**
    From `Size` stored entries on, the first entry is followed by the most
    recent `Size - 1` stored entries and the new one.
   */
  lemma {:induction false} SubmittedLongHistory(sessions: Sessions, user: UserId, text: string)
    requires user in sessions && |sessions[user]| >= Size
    ensures var h := sessions[user];
            Submitted(sessions, user, text) == [h[0]] + h[|h| - Size + 1..] + [Message(User, text)]
  {
    var h := sessions[user];
    var pre := h + [Message(User, text)];
    TrimLongDropsOldest(pre);
    assert pre[|pre| - Size..] == h[|h| - Size + 1..] + [Message(User, text)];
    assert Submitted(sessions, user, text) == Trim(pre);
  }

  /** The outcome of a call depends on the oracle only through its answer to the submitted list. */
  lemma RespondDependsOnlyOnSubmitted(sessions: Sessions, user: UserId, text: string, o1: Oracle, o2: Oracle)
    requires o1(Respond(sessions, user, text, o1).submitted) == o2(Respond(sessions, user, text, o1).submitted)
    ensures Respond(sessions, user, text, o1) == Respond(sessions, user, text, o2)
  {
  }

  /**
    Calls for two different users touch disjoint entries, so their order
    does not matter: both end in the same sessions, and each user gets the
    same submitted list and reply either way.
   */
  lemma {:induction false} RespondDistinctUsersCommute(sessions: Sessions, u1: UserId, t1: string, o1: Oracle,
                                                        u2: UserId, t2: string, o2: Oracle)
    requires u1 != u2
    ensures var a1 := Respond(sessions, u1, t1, o1);
            var a2 := Respond(a1.sessions, u2, t2, o2);
            var b2 := Respond(sessions, u2, t2, o2);
            var b1 := Respond(b2.sessions, u1, t1, o1);
            && a2.sessions == b1.sessions
            && a1.submitted == b1.submitted && a1.reply == b1.reply
            && a2.submitted == b2.submitted && a2.reply == b2.reply
  {
    var h1 := Submitted(sessions, u1, t1);
    var h2 := Submitted(sessions, u2, t2);
    var a1 := Respond(sessions, u1, t1, o1);
    var b2 := Respond(sessions, u2, t2, o2);
    SubmittedDependsOnlyOnOpening(a1.sessions, sessions, u2, t2);
    SubmittedDependsOnlyOnOpening(b2.sessions, sessions, u1, t1);
    var a2 := Respond(a1.sessions, u2, t2, o2);
    var b1 := Respond(b2.sessions, u1, t1, o1);
    assert a1 == Record(sessions, u1, h1, o1(h1));
    assert b1 == Record(b2.sessions, u1, h1, o1(h1));
    assert a2 == Record(a1.sessions, u2, h2, o2(h2));
    assert b2 == Record(sessions, u2, h2, o2(h2));
    RecordCommutes(sessions, u1, h1, o1(h1), u2, h2, o2(h2));
  }

  lemma RecordCommutes(sessions: Sessions, u1: UserId, h1: History, c1: Completion,
                       u2: UserId, h2: History, c2: Completion)
    requires u1 != u2
    ensures var a1 := Record(sessions, u1, h1, c1);
            var b2 := Record(sessions, u2, h2, c2);
            var a2 := Record(a1.sessions, u2, h2, c2);
            var b1 := Record(b2.sessions, u1, h1, c1);
            a2.sessions == b1.sessions && a1.reply == b1.reply && a2.reply == b2.reply
  {
    var x1 := Stored(h1, c1);
    var x2 := Stored(h2, c2);
    var a1 := Record(sessions, u1, h1, c1);
    var b2 := Record(sessions, u2, h2, c2);
    assert a1 == Exchange(sessions[u1 := x1], h1, ReplyOf(c1));
    assert b2 == Exchange(sessions[u2 := x2], h2, ReplyOf(c2));
    assert Record(a1.sessions, u2, h2, c2) == Exchange(sessions[u1 := x1][u2 := x2], h2, ReplyOf(c2));
    assert Record(b2.sessions, u1, h1, c1) == Exchange(sessions[u2 := x2][u1 := x1], h1, ReplyOf(c1));
    assert sessions[u1 := x1][u2 := x2] == sessions[u2 := x2][u1 := x1];
  }

  /**
    The list line 119's comment describes: the opening history plus the
    user entry, windowed by `Intended` rather than by `Trim`.
   */
  function IntendedSubmitted(sessions: Sessions, user: UserId, text: string): (h: History)
    ensures |h| == 1 + Min(|Opening(sessions, user)|, Size)
    ensures 0 < |h| <= Size + 1
  {
    Intended(Opening(sessions, user) + [Message(User, text)])
  }

  /**
    With the intended window, a history whose only system entry is the
    directive in front is submitted with that one directive, then the most
    recent conversation entries, ending with the new user entry.
   */
  lemma {:induction false} IntendedSubmittedSystemOnlyInFront(sessions: Sessions, user: UserId, text: string)
    requires user in sessions ==> SystemOnlyInFront(sessions[user])
    ensures var h := IntendedSubmitted(sessions, user, text);
            SystemOnlyInFront(h) && h[|h| - 1] == Message(User, text)
  {
    var pre := Opening(sessions, user) + [Message(User, text)];
    assert SystemOnlyInFront(pre);
    IntendedKeepsSystemOnlyInFront(pre);
    IntendedKeepsSuffix(pre);
    var h := Intended(pre);
    assert h[|h| - 1] == h[1..][|h| - 2] == pre[|pre| - 1];
  }

  /** With the intended window, a first contact submits the directive once. */
  lemma IntendedFirstContact(sessions: Sessions, user: UserId, text: string)
    requires user !in sessions
    ensures IntendedSubmitted(sessions, user, text) == [Directive, Message(User, text)]
  {
    IntendedShortUnchanged([Directive, Message(User, text)]);
  }

  /**
    Line 120 as written on a second turn: the stored first exchange is kept
    whole behind one more copy of the directive.
   */
  lemma {:induction false} SecondSubmissionRepeatsDirective(sessions: Sessions, user: UserId,
                                                            t1: string, answer: string, t2: string)
    requires user in sessions
    requires sessions[user] == [Directive, Directive, Message(User, t1), Message(Assistant, answer)]
    ensures var h := Submitted(sessions, user, t2);
            && h == [Directive, Directive, Directive, Message(User, t1), Message(Assistant, answer), Message(User, t2)]
            && !SystemOnlyInFront(h)
  {
    var stored := sessions[user];
    SubmittedShortHistory(sessions, user, t2);
    var h := Submitted(sessions, user, t2);
    var want := [Directive, Directive, Directive, Message(User, t1), Message(Assistant, answer), Message(User, t2)];
    assert h == [stored[0]] + stored + [Message(User, t2)];
    assert |h| == 6;
    assert forall k :: 0 <= k < 6 ==> h[k] == want[k];
    assert h[1].role == System;
  }
}
