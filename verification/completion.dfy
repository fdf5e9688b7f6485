/**
  The completion call of api/index.py lines 123-128 and the two error
  branches of lines 134-139.

  The call is an oracle: a total function from the submitted history to
  either the raw reply content or a failure of one of two kinds.
 */
module Completion {
  import opened Chat

  /** `openai.OpenAIError` versus any other exception. */
  datatype ErrorKind = ProviderError | OtherError

  datatype Completion = Ok(content: string) | Err(kind: ErrorKind, message: string)

  type Oracle = History -> Completion

  const ProviderErrorPrefix: string := "OpenAI API 錯誤: "
  const OtherErrorPrefix: string := "未知錯誤: "

  function Prefix(kind: ErrorKind): string {
    match kind
    case ProviderError => ProviderErrorPrefix
    case OtherError => OtherErrorPrefix
  }

  /**
    The chat reply that surfaces a failure: the kind's prefix, then the
    exception text verbatim.
   */
  function ErrorReply(kind: ErrorKind, message: string): (r: string)
    ensures |r| == |Prefix(kind)| + |message|
    ensures r[..|Prefix(kind)|] == Prefix(kind)
    ensures r[|Prefix(kind)|..] == message
  {
    Prefix(kind) + message
  }

  /** The two prefixes differ, so the reply alone tells which kind of failure occurred. */
  lemma ErrorReplyDeterminesKind(k1: ErrorKind, m1: string, k2: ErrorKind, m2: string)
    requires ErrorReply(k1, m1) == ErrorReply(k2, m2)
    ensures k1 == k2 && m1 == m2
  {
    var r := ErrorReply(k1, m1);
    assert r[0] == Prefix(k1)[0] && r[0] == Prefix(k2)[0];
    assert m1 == r[|Prefix(k1)|..] == m2;
  }

  /** The provider-error reply for the message `rate limit exceeded`. */
  lemma RateLimitText()
    ensures ErrorReply(ProviderError, "rate limit exceeded") == "OpenAI API 錯誤: rate limit exceeded"
  {
  }
}
