/** The caller of the generator: a reply starting with "**" is shown as an
    error, any other reply is parsed and shown in tabs. */
module Dispatch {

  import opened Wrappers
  import opened Generator
  import opened Response

  /** `response.startswith("**")`: the reply is "**" followed by anything. */
  predicate IsErrorReply(reply: string): (b: bool)
    ensures b <==> exists rest :: reply == "**" + rest
  {
    if |reply| >= 2 && reply[..2] == "**" then
      assert reply == "**" + reply[2..];
      true
    else
      assert forall rest :: ("**" + rest)[..2] == "**";
      false
  }

  /** What the generator panel shows. */
  datatype View = ErrorView(message: string) | Tabs(components: Components)

  /** The branch taken on a reply. */
  function Handle(reply: string): (v: View)
    ensures v.ErrorView? <==> IsErrorReply(reply)
    ensures v.ErrorView? ==> v.message == reply
    ensures v.Tabs? ==> v.components == Parse(reply)
  {
    if !IsErrorReply(reply) then Tabs(Parse(reply)) else ErrorView(reply)
  }

  /** Every reply from the exception path passes the caller's error test, so
      it is shown verbatim as an error and never parsed. */
  lemma FailureIsShownAsError(msg: string)
    ensures IsErrorReply(GenerateReply(Failure(msg)))
    ensures Handle(GenerateReply(Failure(msg))) == ErrorView(ErrorPrefix + msg)
  {
    assert GenerateReply(Failure(msg))[..2] == ErrorPrefix[..2];
  }

  /** A successful reply that does not start with "**" is parsed. */
  lemma SuccessIsParsed(text: string)
    requires !IsErrorReply(text)
    ensures Handle(GenerateReply(Success(text))) == Tabs(Parse(text))
  {
  }

  /** A successful reply that opens with bold markdown is shown as an error
      and its code block is lost. */
  lemma BoldReplyShownAsError()
    ensures var text := "**Summary**\n```python\nprint(1)\n```\n";
            Handle(GenerateReply(Success(text))).ErrorView?
  {
    var text := "**Summary**\n```python\nprint(1)\n```\n";
    assert text[..2] == "**";
  }

  /** Routing on the outcome of the call instead of on the reply text: the
      error view appears exactly when the call raised, and a successful reply
      is always parsed. */
  function HandleOutcome(call: Result<string, string>): (v: View)
    ensures v.ErrorView? <==> call.Failure?
    ensures call.Failure? ==> v == Handle(GenerateReply(call))
    ensures call.Success? ==> v == Tabs(Parse(call.value))
  {
    match call
    case Failure(msg) =>
      FailureIsShownAsError(msg);
      ErrorView(GenerateReply(call))
    case Success(text) => Tabs(Parse(text))
  }
}
