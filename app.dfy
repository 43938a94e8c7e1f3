/**
  One pass of the debugger page: the code to analyse is taken from the upload
  or the text box, the prompt is sent to the language model when the analyse
  button is pressed, and the reply is shown in three tabs. The model service
  is a parameter, a function from prompt to completion; the page otherwise
  does the same thing for the same inputs.
 */
module DebuggerApp {
  import opened Wrappers
  import opened PyStr
  import opened Sectionizer
  import opened Prompt

  /** What the model service gives back for a prompt: its text, or the exception it raised. */
  datatype Completion = Reply(text: string) | Raised(message: string)

  const ServiceErrorPrefix: string := "\U{274C} Gemini error: "

  /**
    The analysis text for `code`: the reply to its prompt, or the service's
    exception message after a fixed prefix.
   */
  function AnalyzeCode(generate: string -> Completion, code: string, language: Language): (result: string)
    ensures generate(BuildPrompt(language, code)).Reply? ==> result == generate(BuildPrompt(language, code)).text
    ensures generate(BuildPrompt(language, code)).Raised? ==>
              && ServiceErrorPrefix <= result
              && result[|ServiceErrorPrefix|..] == generate(BuildPrompt(language, code)).message
  {
    match generate(BuildPrompt(language, code))
    case Reply(text) => text
    case Raised(message) => ServiceErrorPrefix + message
  }

  /**
    The code to analyse: an uploaded file wins, even an empty one; otherwise
    the typed text, which may be empty.
   */
  function ChooseCode(uploaded: Option<string>, manual: string): (code: string)
    ensures uploaded.Some? ==> code == uploaded.value
    ensures uploaded.None? ==> code == manual
  {
    if uploaded.Some? then uploaded.value
    else if manual != "" then manual
    else ""
  }

  /**
    The results column: the placeholder when there is no code, the code alone
    before the button is pressed, and the code with the result tabs after.
   */
  datatype View = Placeholder | CodeShown(code: string) | Report(code: string, tabs: Tabs)

  function RunApp(generate: string -> Completion, language: Language, uploaded: Option<string>,
                  manual: string, analyze: bool): (view: View)
    ensures view.Placeholder? <==> ChooseCode(uploaded, manual) == ""
    ensures view.Report? <==> ChooseCode(uploaded, manual) != "" && analyze
    ensures !view.Placeholder? ==> view.code == ChooseCode(uploaded, manual)
    ensures view.Report? ==> view.tabs == Render(AnalyzeCode(generate, view.code, language))
  {
    var code := ChooseCode(uploaded, manual);
    if code == "" then Placeholder
    else if !analyze then CodeShown(code)
    else Report(code, Render(AnalyzeCode(generate, code, language)))
  }

  /** Without code, or before the button is pressed, the service is not consulted. */
  lemma NoRequestUntilAnalyze(generate: string -> Completion, other: string -> Completion, language: Language,
                              uploaded: Option<string>, manual: string, analyze: bool)
    requires ChooseCode(uploaded, manual) == "" || !analyze
    ensures RunApp(generate, language, uploaded, manual, analyze)
         == RunApp(other, language, uploaded, manual, analyze)
  {
  }

  /** With a file uploaded, whatever is typed in the text box makes no difference. */
  lemma UploadOverridesManual(generate: string -> Completion, language: Language, upload: string,
                              manual: string, manual': string, analyze: bool)
    ensures RunApp(generate, language, Some(upload), manual, analyze)
         == RunApp(generate, language, Some(upload), manual', analyze)
  {
  }

  /** A well-formed reply puts each of its sections, stripped, in its tab. */
  lemma ReportShowsSections(generate: string -> Completion, language: Language, uploaded: Option<string>,
                            manual: string, code: string, p: string, a: string, b: string, c: string)
    requires ChooseCode(uploaded, manual) == code && code != ""
    requires generate(BuildPrompt(language, code)) == Reply(Formatted(p, a, b, c))
    requires NoMarker(p) && NoMarker(a) && NoMarker(b) && NoMarker(c)
    ensures RunApp(generate, language, uploaded, manual, true)
         == Report(code, Tabs(Panel(ErrorBox, Strip(a)), Panel(CodeBlock, Strip(b)), Panel(SuccessBox, Strip(c))))
  {
    SectionizeRoundTrip(p, a, b, c);
  }

  /**
    When the service raises an exception whose message holds no marker, the
    prefixed message holds none either, and every tab shows its fallback.
   */
  lemma FailureShowsFallbacks(generate: string -> Completion, language: Language, uploaded: Option<string>,
                              manual: string, code: string, message: string)
    requires ChooseCode(uploaded, manual) == code && code != ""
    requires generate(BuildPrompt(language, code)) == Raised(message)
    requires NoMarker(message)
    ensures RunApp(generate, language, uploaded, manual, true)
         == Report(code, Tabs(Panel(WarningBox, NoErrorsText), Panel(InfoBox, NoCorrectionsText),
                              Panel(InfoBox, NoExplanationText)))
  {
    PrefixWithoutMarker(message);
  }

  lemma PrefixWithoutMarker(message: string)
    requires NoMarker(message)
    ensures NoMarker(ServiceErrorPrefix + message)
  {
    assert 'E' !in ServiceErrorPrefix && 'C' !in ServiceErrorPrefix;
    PrefixFree(ServiceErrorPrefix, message, ErrorsMarker);
    PrefixFree(ServiceErrorPrefix, message, CorrectedMarker);
    PrefixFree(ServiceErrorPrefix, message, ExplanationMarker);
  }
}
