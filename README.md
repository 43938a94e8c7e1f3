# AI Code Debugger Pro, modelled in Dafny

The debugger is a single Streamlit page (`debugger_app.py`). The user picks a language from a
select box and supplies code by uploading a file or by typing it. When they press "Analyze
Code", the page formats a fixed prompt around the code and sends it to a hosted language model
(Gemini). It then cuts the model's free-text reply into three tabs: errors, corrected code and
explanation. The cut uses the literal markers `Errors:`, `Corrected code:` and `Explanation:`,
which the prompt asks the model to use. A tab whose marker is missing shows a fixed fallback
message.

The project models that logic as pure functions, and proves what the page guarantees and where
its marker splitting breaks down.

- `wrappers.dfy` (`Wrappers`): the `Option` type.
- `pystr.dfy` (`PyStr`): the Python string operations the page relies on, over `string`:
  - `in`, `find`, `split` and `join`;
  - `strip`, with Python's `str.isspace` character set.
- `sectionizer.dfy` (`Sectionizer`): the three extractions with their fallbacks, and the tabs
  they produce.
  - The section a marker delimits is described declaratively: from the marker's first
    occurrence to the next occurrence of the same marker or of the following one.
  - The extractions are proved equal to that description.
  - Lemmas cover replies laid out as the prompt asks, and replies that are not.
- `prompt.dfy` (`Prompt`): the prompt template and the five language labels, with a parser
  that inverts the template.
- `app.dfy` (`DebuggerApp`): one pass of the page.
  - The code is chosen from the upload or the text box.
  - The model is called, or not.
  - The results column shows a placeholder, the code alone, or the code with its result tabs.

The language model is a parameter `generate: string -> Completion`. A `Completion` is either
the reply text or the message of the exception the client raised.

## Model

| member | source | states |
|---|---|---|
| PyStr.Contains | debugger_app.py:161 | `m in s`: an occurrence of `m` starts somewhere in `s`. The empty string is in every string, and a longer string is in no shorter one. |
| PyStr.ContainsFound | debugger_app.py:161 | `m in s` holds exactly when the search for `m` from the start finds it. |
| PyStr.FindFromSpec | debugger_app.py:161-162 | The search for a marker reports its first occurrence at or after `from`, and reports none only when it occurs nowhere from there on. |
| PyStr.FindFromFirst | debugger_app.py:161-162 | Whatever index is the first occurrence is the one the search reports. |
| PyStr.Split | debugger_app.py:162-176 | `s.split(sep)` for a non-empty separator always has at least one piece. Its contents are pinned by `JoinSplit`, `SplitPiecesFree`, `SplitCount` and `SplitSecondAt`. |
| PyStr.SplitCount | debugger_app.py:161-162 | `s.split(sep)` has a second piece exactly when `sep` occurs in `s`, so the `in` guard is what makes `[1]` safe. |
| PyStr.JoinSplit | debugger_app.py:162 | Joining the pieces of `s.split(sep)` with `sep` gives back `s`. |
| PyStr.SplitPiecesFree | debugger_app.py:162 | No piece of `s.split(sep)` contains `sep`. |
| PyStr.SplitSecondAt | debugger_app.py:176 | `s.split(m)[1]` is exactly the text from just after the first `m` to the second `m`, or to the end when there is no second one. |
| PyStr.Strip | debugger_app.py:163 | `s.strip()` has no whitespace at either end and is `s` with only whitespace removed from its two ends. |
| PyStr.StripUnique | debugger_app.py:163 | Any cut of whitespace-only ends that leaves trimmed text is the result of `strip()`. |
| PyStr.StripIdempotent | debugger_app.py:163 | Stripping twice is the same as stripping once. |
| PyStr.StripFramed | debugger_app.py:163 | Whitespace around trimmed text is exactly what `strip()` removes. |
| Sectionizer.ExtractErrors | debugger_app.py:161-163 | The errors section is present exactly when `Errors:` occurs in the reply, and is then trimmed. |
| Sectionizer.ExtractCorrected | debugger_app.py:168-170 | The corrected-code section is present exactly when `Corrected code:` occurs, and is then trimmed. |
| Sectionizer.ExtractExplanation | debugger_app.py:175-177 | The explanation section is present exactly when `Explanation:` occurs, and is then trimmed. |
| Sectionizer.Render | debugger_app.py:158-179 | Each tab shows its fallback (a warning, or an info box with the fixed message) exactly when its marker is absent. Otherwise it shows, in an error box, a code block or a success box, exactly the section that extraction gives for its marker. |
| Sectionizer.Sectionize | debugger_app.py:161-177 | The three extractions together: each section is present exactly when its marker occurs in the reply. |
| Sectionizer.SectionExists | debugger_app.py:161-162 | Every reply containing a marker has a section for it: a first occurrence and a stopping point. |
| Sectionizer.SectionExcludesMarkers | debugger_app.py:162 | Before stripping, a section contains neither its own marker nor the marker that ends it. |
| Sectionizer.SplitBetween | debugger_app.py:162 | `s.split(m)[1].split(t)[0]` is the text from the first `m` to the next `m` or `t`, whenever the first character of `m` does not occur in `t` after its first character, so that no `m` can start inside a `t`. |
| Sectionizer.MarkersSeparate | debugger_app.py:161-176 | No marker can overlap itself or another marker. |
| Sectionizer.ErrorsSection | debugger_app.py:161-163 | The errors section, and the errors tab's error box, hold the stripped text from the first `Errors:` to the next `Errors:` or `Corrected code:`, or to the end. |
| Sectionizer.CorrectedSection | debugger_app.py:168-170 | The corrected-code section, and the tab's code block, hold the stripped text from the first `Corrected code:` to the next `Corrected code:` or `Explanation:`, or to the end. |
| Sectionizer.ExplanationSection | debugger_app.py:175-177 | The explanation section, and the tab's success box, hold the stripped text from the first `Explanation:` to the second one, or to the end. |
| Sectionizer.SectionOfLayout | debugger_app.py:161-177 | A self-separating marker `m` after text free of it, followed by a body free of `m` and of `t`, delimits exactly that body. The body must be followed by the end, or by `m` or `t` whose first character does not occur in `m` or `t` after their first characters. |
| Sectionizer.ErrorsOfLayout | debugger_app.py:161-163 | After `Errors:`, a marker-free body followed by the end, `Errors:` or `Corrected code:` is shown stripped in the errors tab. |
| Sectionizer.CorrectedOfLayout | debugger_app.py:168-170 | After `Corrected code:`, a marker-free body followed by the end, `Corrected code:` or `Explanation:` is shown stripped. |
| Sectionizer.ExplanationOfLayout | debugger_app.py:175-177 | After `Explanation:`, a body followed by the end or a second `Explanation:` is shown stripped. |
| Sectionizer.FormattedErrors | debugger_app.py:161-163 | In a reply in the requested format, the errors tab shows the first body, stripped. |
| Sectionizer.FormattedCorrected | debugger_app.py:168-170 | In a reply in the requested format, the corrected-code tab shows the second body, stripped. |
| Sectionizer.FormattedExplanation | debugger_app.py:175-177 | In a reply in the requested format, the explanation tab shows the third body, stripped. |
| Sectionizer.SectionizeRoundTrip | debugger_app.py:161-177 | Take a preamble and three bodies, none containing a marker. Sectionizing `p + "Errors:" + a + "Corrected code:" + b + "Explanation:" + c` gives back `a`, `b` and `c`, stripped. |
| Sectionizer.OnlyCorrected | debugger_app.py:161-179 | A reply whose only marker is `Corrected code:` has the corrected section, stripped, and no errors or explanation section. |
| Sectionizer.ExplanationEndsAtRepeat | debugger_app.py:176 | A second `Explanation:` cuts the explanation short; what follows it is not shown. |
| Sectionizer.ErrorsAbsorbExplanation | debugger_app.py:162 | Without `Corrected code:`, the errors section runs on through `Explanation:` and the explanation text. |
| Sectionizer.NoMarkerWithoutCapitals | debugger_app.py:161-176 | Text without a capital `E` or `C` holds no marker. |
| Sectionizer.Line | debugger_app.py:163 | A trimmed line with no capital `E` or `C`, between newlines, holds no marker and strips back to the line. |
| Sectionizer.DivisionByZeroReply | debugger_app.py:161-177 | A concrete three-line reply in the requested format yields its three lines, one per tab. |
| Prompt.NamesDistinct | debugger_app.py:101-105 | The five select-box labels are pairwise distinct, so the label in the prompt names the language. |
| Prompt.BuildPrompt | debugger_app.py:59-72 | The prompt is the fixed preamble naming the language, then the code verbatim, then a final newline. |
| Prompt.ParseRequest | debugger_app.py:59-72 | Whatever it parses is the prompt of the language and code it returns. |
| Prompt.ParseBuild | debugger_app.py:59-72 | Parsing the prompt for a language and some code gives back that language and that code. |
| Prompt.BuildPromptInjective | debugger_app.py:59-72 | Different language or code gives a different prompt. |
| Prompt.PreambleDetermines | debugger_app.py:62 | No language's preamble begins the prompt of another language. |
| Prompt.PromptHasMarkers | debugger_app.py:64-67 | The prompt itself contains `Errors:`, `Corrected code:` and `Explanation:`, in that order. A reply that merely echoes it fills every tab and shows no fallback. |
| DebuggerApp.AnalyzeCode | debugger_app.py:73-77 | The analysis is the reply to exactly the built prompt. If the call raises, it is the fixed error prefix followed by the exception's message. |
| DebuggerApp.ChooseCode | debugger_app.py:122-127 | An uploaded file wins, even an empty one. Otherwise the typed text is used, and empty text means no code. |
| DebuggerApp.RunApp | debugger_app.py:122-185 | The placeholder is shown exactly when there is no code. The tabs are shown exactly when there is code and the button was pressed, and they are then the rendering of the analysis of that code in the chosen language. Every other view shows the chosen code. |
| DebuggerApp.NoRequestUntilAnalyze | debugger_app.py:130-148 | Without code, or before the button is pressed, the view does not depend on the model. |
| DebuggerApp.UploadOverridesManual | debugger_app.py:124-127 | With a file uploaded, the typed text makes no difference. |
| DebuggerApp.ReportShowsSections | debugger_app.py:148-177 | Whichever way the code was supplied, a reply in the requested format puts each section, stripped, in its tab. |
| DebuggerApp.FailureShowsFallbacks | debugger_app.py:76-179 | Whichever way the code was supplied, when the call raises with a marker-free message, the prefixed message holds no marker and all three tabs show their fallbacks. |

The page strips every section (`debugger_app.py:163,170,177`). A reply with only
`Corrected code:` therefore yields the corrected body stripped, not verbatim. The model follows
the code here (`Sectionizer.OnlyCorrected`).

## Left out

- Streamlit layout and widgets are not modelled: title, captions, columns, expanders, the
  spinner, the progress-bar animation (`time.sleep` loop), the confetti script and the CSS. They
  carry no logic beyond what `RunApp` chooses to show.
- The remote model call is not modelled. It becomes the function parameter `generate`, and any
  exception becomes `Raised(message)` with `message` standing for `str(e)`.
- UTF-8 decoding of the upload is not modelled: `uploaded_file.read().decode("utf-8")` is
  represented by the decoded text. A decoding error, which the page does not catch, is not
  modelled.
- The uploader's file-type filter is not modelled: it is enforced by the widget, not by the page.
- The syntax-highlighting language passed to `st.code` (`language.lower()`) is not modelled:
  it affects only colouring.
- The six-line limit the prompt requests is not modelled: nothing in the page enforces it.
- The selected language is modelled as one of the five select-box labels (a datatype), not as
  arbitrary text: the widget allows only those.
- `PyStr.Split` requires a non-empty separator. Python raises on an empty one, and the page
  only splits on its three non-empty markers.
- `DebuggerApp.RunApp` models one script run. Streamlit's re-run on every interaction, and the
  button being true only on the run after the click, are represented by the `analyze` flag.
