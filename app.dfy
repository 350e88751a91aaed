/** The "Generate Caption" action of app.py: the blank-context guard, then the
    prompt, the completion and the split of its text.  The hosted model is a
    parameter `complete` from the prompt to the response text. */
module App {
  import opened PyStr
  import opened Prompt
  import opened Response

  /** The form fields the page reads on every rerun. */
  datatype Form = Form(context: string, mood: string, platform: Platform, includeHashtags: bool)

  const BlankContextWarning: string := "⚠️ Please enter some context before generating!"

  /** What one press of the button leads to: the warning, or the prompt that
      was sent and what became of the model's answer. */
  datatype Outcome =
    | Warned(message: string)
    | Answered(prompt: string, reply: Result<Reply, UnpackError>)

  /** `not context.strip()` is false: generation may proceed. */
  function CanGenerate(context: string): (ok: bool)
    ensures ok <==> !IsBlank(context)
  {
    Strip(context) != []
  }

  /** The prompt `generate_prompt()` builds from the form. */
  function FormPrompt(form: Form): string {
    GeneratePrompt(form.context, form.mood, form.platform, form.includeHashtags)
  }

  /** The button handler.  A context made only of whitespace (the empty one
      included) takes the warning branch; otherwise the prompt built from the
      form is sent and the answer split. */
  function OnGenerate(form: Form, complete: string -> string): (o: Outcome)
    ensures o.Warned? <==> IsBlank(form.context)
    ensures o.Warned? ==> o.message == BlankContextWarning
    ensures o.Answered? ==> o.prompt == FormPrompt(form)
  {
    if !CanGenerate(form.context) then
      Warned(BlankContextWarning)
    else
      var prompt := FormPrompt(form);
      Answered(prompt, SplitResponse(complete(prompt)))
  }

  /** When the guard blocks, the model is never consulted: any two models give
      the same outcome, the warning. */
  lemma BlankNeverQueries(form: Form, complete1: string -> string, complete2: string -> string)
    requires IsBlank(form.context)
    ensures OnGenerate(form, complete1) == OnGenerate(form, complete2) == Warned(BlankContextWarning)
  {
  }

  /** When the guard lets the form through, the outcome is the split of what the
      model answered to exactly the form's prompt. */
  lemma AnsweredIsSplitOfCompletion(form: Form, complete: string -> string)
    requires !IsBlank(form.context)
    ensures OnGenerate(form, complete) == Answered(FormPrompt(form), SplitResponse(complete(FormPrompt(form))))
  {
  }

  /** The empty context is blocked. */
  lemma EmptyContextBlocked(mood: string, platform: Platform, hashtags: bool, complete: string -> string)
    ensures OnGenerate(Form("", mood, platform, hashtags), complete) == Warned(BlankContextWarning)
  {
  }

  /** A context with one non-whitespace character lets generation proceed. */
  lemma NonBlankProceeds(context: string, k: nat)
    requires k < |context| && !IsSpace(context[k])
    ensures CanGenerate(context)
  {
  }
}
