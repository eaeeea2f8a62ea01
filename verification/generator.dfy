/** The pure parts of `generate_code_from_text`: the two optional prompt
    fragments and the value it returns, given the outcome of the model call. */
module Generator {

  import opened Wrappers

  const TemplateLead := " using the "
  const TemplateTail := " template structure"
  const RefinementLead := "\nPrevious code feedback: "

  /** The prefix of the reply built on the exception path. */
  const ErrorPrefix := "**Generation Error**: "

  /** Python truthiness of an optional string argument: not None, not ''. */
  predicate Given(arg: Option<string>)
  {
    arg.Some? && arg.value != ""
  }

  /** Recovers the template name from a template fragment. */
  function TemplateOf(fragment: string): Option<string>
  {
    var a := |TemplateLead|;
    var b := |TemplateTail|;
    if |fragment| >= a + b && fragment[..a] == TemplateLead && fragment[|fragment| - b..] == TemplateTail
    then Some(fragment[a..|fragment| - b])
    else None
  }

  /** Recovers the feedback text from a refinement fragment. */
  function RefinementOf(fragment: string): Option<string>
  {
    var a := |RefinementLead|;
    if |fragment| >= a && fragment[..a] == RefinementLead then Some(fragment[a..]) else None
  }

  /** `template_prompt`: empty unless a template other than "Custom" is
      chosen; otherwise a fragment from which the template name can be read
      back. */
  function TemplateFragment(template: Option<string>): (r: string)
    ensures r == "" <==> !Given(template) || template.value == "Custom"
    ensures r != "" ==> TemplateOf(r) == template
  {
    if Given(template) && template.value != "Custom" then
      var r := TemplateLead + template.value + TemplateTail;
      assert r[..|TemplateLead|] == TemplateLead;
      assert r[|r| - |TemplateTail|..] == TemplateTail;
      assert r[|TemplateLead|..|r| - |TemplateTail|] == template.value;
      r
    else ""
  }

  /** `refinement_prompt`: empty unless feedback text is given; otherwise a
      fragment on a new line from which the feedback can be read back. */
  function RefinementFragment(refinement: Option<string>): (r: string)
    ensures r == "" <==> !Given(refinement)
    ensures r != "" ==> r[0] == '\n' && RefinementOf(r) == refinement
  {
    if Given(refinement) then
      var r := RefinementLead + refinement.value;
      assert r[..|RefinementLead|] == RefinementLead;
      assert r[|RefinementLead|..] == refinement.value;
      r
    else ""
  }

  /** What `generate_code_from_text` returns: the reply text when the model
      call succeeds, the error sentinel with the exception message when it
      raises. */
  function GenerateReply(call: Result<string, string>): (reply: string)
    ensures call.Failure? ==> |reply| >= |ErrorPrefix| && reply[..|ErrorPrefix|] == ErrorPrefix
    ensures call.Failure? ==> reply[|ErrorPrefix|..] == call.error
    ensures call.Success? ==> reply == call.value
  {
    match call
    case Success(text) => text
    case Failure(msg) => ErrorPrefix + msg
  }
}
