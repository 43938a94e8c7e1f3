/**
  The response sectionizer: the model's free-text reply is cut into the three
  sections shown in the result tabs, by the literal markers the prompt asks
  the model to use. A tab whose marker is missing shows a fixed fallback.
 */
module Sectionizer {
  import opened Wrappers
  import opened PyStr

  const ErrorsMarker: string := "Errors:"
  const CorrectedMarker: string := "Corrected code:"
  const ExplanationMarker: string := "Explanation:"

  const NoErrorsText: string := "No errors detected!"
  const NoCorrectionsText: string := "No corrections suggested"
  const NoExplanationText: string := "No explanation provided"

  /** `reply.split("Errors:")[1].split("Corrected code:")[0].strip()`, under the `in` guard. */
  function ExtractErrors(reply: string): (section: Option<string>)
    ensures section.Some? <==> Contains(reply, ErrorsMarker)
    ensures section.Some? ==> Trimmed(section.value)
  {
    if Contains(reply, ErrorsMarker) then
      SplitCount(reply, ErrorsMarker);
      Some(Strip(Split(Split(reply, ErrorsMarker)[1], CorrectedMarker)[0]))
    else
      None
  }

  /** `reply.split("Corrected code:")[1].split("Explanation:")[0].strip()`, under the `in` guard. */
  function ExtractCorrected(reply: string): (section: Option<string>)
    ensures section.Some? <==> Contains(reply, CorrectedMarker)
    ensures section.Some? ==> Trimmed(section.value)
  {
    if Contains(reply, CorrectedMarker) then
      SplitCount(reply, CorrectedMarker);
      Some(Strip(Split(Split(reply, CorrectedMarker)[1], ExplanationMarker)[0]))
    else
      None
  }

  /** `reply.split("Explanation:")[1].strip()`, under the `in` guard. */
  function ExtractExplanation(reply: string): (section: Option<string>)
    ensures section.Some? <==> Contains(reply, ExplanationMarker)
    ensures section.Some? ==> Trimmed(section.value)
  {
    if Contains(reply, ExplanationMarker) then
      SplitCount(reply, ExplanationMarker);
      Some(Strip(Split(reply, ExplanationMarker)[1]))
    else
      None
  }

  /** The three sections of one reply, each absent when its marker is. */
  datatype Sections = Sections(errors: Option<string>, corrected: Option<string>, explanation: Option<string>)

  function Sectionize(reply: string): (sections: Sections)
    ensures sections.errors.Some? <==> Contains(reply, ErrorsMarker)
    ensures sections.corrected.Some? <==> Contains(reply, CorrectedMarker)
    ensures sections.explanation.Some? <==> Contains(reply, ExplanationMarker)
  {
    Sections(ExtractErrors(reply), ExtractCorrected(reply), ExtractExplanation(reply))
  }

  /** The widget a tab's text is shown in: `st.error`, `st.warning`, `st.code`, `st.info`, `st.success`. */
  datatype Style = ErrorBox | WarningBox | CodeBlock | InfoBox | SuccessBox

  datatype Panel = Panel(style: Style, text: string)

  /** The Errors, Corrected Code and Explanation tabs. */
  datatype Tabs = Tabs(errors: Panel, corrected: Panel, explanation: Panel)

  function Show(section: Option<string>, style: Style, fallback: Panel): Panel {
    match section
    case Some(text) => Panel(style, text)
    case None => fallback
  }

  /** The result tabs for a reply: the extracted section, or the tab's fixed fallback. */
  function Render(reply: string): (tabs: Tabs)
    ensures tabs.errors == Panel(WarningBox, NoErrorsText) <==> !Contains(reply, ErrorsMarker)
    ensures tabs.corrected == Panel(InfoBox, NoCorrectionsText) <==> !Contains(reply, CorrectedMarker)
    ensures tabs.explanation == Panel(InfoBox, NoExplanationText) <==> !Contains(reply, ExplanationMarker)
    ensures Contains(reply, ErrorsMarker) ==> tabs.errors.style == ErrorBox && Trimmed(tabs.errors.text)
    ensures Contains(reply, CorrectedMarker) ==> tabs.corrected.style == CodeBlock && Trimmed(tabs.corrected.text)
    ensures Contains(reply, ExplanationMarker) ==> tabs.explanation.style == SuccessBox && Trimmed(tabs.explanation.text)
    ensures Contains(reply, ErrorsMarker) ==> Some(tabs.errors.text) == ExtractErrors(reply)
    ensures Contains(reply, CorrectedMarker) ==> Some(tabs.corrected.text) == ExtractCorrected(reply)
    ensures Contains(reply, ExplanationMarker) ==> Some(tabs.explanation.text) == ExtractExplanation(reply)
  {
    var sections := Sectionize(reply);
    Tabs(
      Show(sections.errors, ErrorBox, Panel(WarningBox, NoErrorsText)),
      Show(sections.corrected, CodeBlock, Panel(InfoBox, NoCorrectionsText)),
      Show(sections.explanation, SuccessBox, Panel(InfoBox, NoExplanationText)))
  }

  // ---------------------------------------------------------------------------
  // Where a section lies in the reply

  /**
    `b` is the first index at or after `a` where `m` or `t` begins, or the end
    of `s` when neither occurs there.
   */
  ghost predicate StopAt(s: string, a: int, b: int, m: string, t: string) {
    && a <= b <= |s|
    && (forall k :: a <= k < b ==> !StartsAt(s, m, k) && !StartsAt(s, t, k))
    && (b == |s| || StartsAt(s, m, b) || StartsAt(s, t, b))
  }

  /**
    The section for marker `m` ended by `t`: `m` first occurs at `i`, and the
    section runs from just after it to `b`, the next occurrence of `m` or `t`.
   */
  ghost predicate SectionAt(s: string, m: string, t: string, i: int, b: int) {
    FirstFrom(s, m, 0, i) && StopAt(s, i + |m|, b, m, t)
  }

  /** Every reply containing `m` has such a section. */
  lemma SectionExists(s: string, m: string, t: string)
    requires m != "" && t != "" && Contains(s, m)
    ensures exists i, b :: SectionAt(s, m, t, i, b)
  {
    FindFromSpec(s, m, 0);
    var first := FindFrom(s, m, 0);
    assert first.Some?;
    var i := first.value;
    var a := i + |m|;
    FindFromSpec(s, m, a);
    FindFromSpec(s, t, a);
    var bm := match FindFrom(s, m, a) case Some(k) => k case None => |s|;
    var bt := match FindFrom(s, t, a) case Some(k) => k case None => |s|;
    var b := if bm < bt then bm else bt;
    assert SectionAt(s, m, t, i, b);
  }

  /** Before stripping, a section is a slice of the reply free of both its markers. */
  lemma SectionExcludesMarkers(s: string, m: string, t: string, i: int, b: int)
    requires m != "" && t != "" && SectionAt(s, m, t, i, b)
    ensures !Contains(s[i + |m|..b], m) && !Contains(s[i + |m|..b], t)
  {
    var a := i + |m|;
    forall k | 0 <= k <= b - a
      ensures !StartsAt(s[a..b], m, k) && !StartsAt(s[a..b], t, k)
    {
      StartsAtSlice(s, m, a, b, k);
      StartsAtSlice(s, t, a, b, k);
    }
  }

  /**
    `s.split(m)[1].split(t)[0]` is exactly the section: from the first `m` to the
    next `m` or `t`, provided an occurrence of `t` cannot run into one of `m`.
   */
  lemma SplitBetween(s: string, m: string, t: string, i: int, b: int)
    requires m != "" && t != "" && m[0] !in t[1..] && SectionAt(s, m, t, i, b)
    ensures |Split(s, m)| >= 2 && Split(Split(s, m)[1], t)[0] == s[i + |m|..b]
  {
    var a := i + |m|;
    var e := NextOrEnd(s, m, a);
    SplitSecondAt(s, m, i, e);
    assert b <= e;
    if b < e {
      assert !StartsAt(s, m, b);
      assert StartsAt(s, t, b);
      if e < |s| {
        assert s[e] == m[0];
        StopsBefore(s, t, b, e);
      }
      assert b + |t| <= e;
    }
    SplitSliceHead(s, t, a, e, b);
    var mid := Split(s, m)[1];
    assert mid == s[a..e];
    assert Split(mid, t)[0] == s[a..b];
  }

  /** Where the next `m` at or after `a` begins, or the end of `s`. */
  function NextOrEnd(s: string, m: string, a: nat): (e: nat)
    requires a <= |s|
    ensures StopAt(s, a, e, m, m)
  {
    FindFromSpec(s, m, a);
    match FindFrom(s, m, a)
    case Some(k) => k
    case None => |s|
  }

  lemma MarkersSeparate()
    ensures SelfSeparating(ErrorsMarker) && SelfSeparating(CorrectedMarker) && SelfSeparating(ExplanationMarker)
    ensures Separates(ErrorsMarker, CorrectedMarker) && Separates(CorrectedMarker, ErrorsMarker)
    ensures Separates(ErrorsMarker, ExplanationMarker) && Separates(ExplanationMarker, ErrorsMarker)
    ensures Separates(CorrectedMarker, ExplanationMarker) && Separates(ExplanationMarker, CorrectedMarker)
  {
    assert ExplanationMarker[..7][1] != ErrorsMarker[..7][1];
  }

  /** The errors tab shows the stripped text from the first `Errors:` to the next `Errors:` or `Corrected code:`. */
  lemma ErrorsSection(reply: string, i: int, b: int)
    requires SectionAt(reply, ErrorsMarker, CorrectedMarker, i, b)
    ensures ExtractErrors(reply) == Some(Strip(reply[i + |ErrorsMarker|..b]))
    ensures Render(reply).errors == Panel(ErrorBox, Strip(reply[i + |ErrorsMarker|..b]))
  {
    MarkersSeparate();
    SplitBetween(reply, ErrorsMarker, CorrectedMarker, i, b);
  }

  /** The corrected-code tab shows the stripped text from the first `Corrected code:` to the next `Corrected code:` or `Explanation:`. */
  lemma CorrectedSection(reply: string, i: int, b: int)
    requires SectionAt(reply, CorrectedMarker, ExplanationMarker, i, b)
    ensures ExtractCorrected(reply) == Some(Strip(reply[i + |CorrectedMarker|..b]))
    ensures Render(reply).corrected == Panel(CodeBlock, Strip(reply[i + |CorrectedMarker|..b]))
  {
    MarkersSeparate();
    SplitBetween(reply, CorrectedMarker, ExplanationMarker, i, b);
  }

  /** The explanation tab shows the stripped text from the first `Explanation:` to the second one, or the end. */
  lemma ExplanationSection(reply: string, i: int, b: int)
    requires SectionAt(reply, ExplanationMarker, ExplanationMarker, i, b)
    ensures ExtractExplanation(reply) == Some(Strip(reply[i + |ExplanationMarker|..b]))
    ensures Render(reply).explanation == Panel(SuccessBox, Strip(reply[i + |ExplanationMarker|..b]))
  {
    SplitSecondAt(reply, ExplanationMarker, i, b);
  }

  // ---------------------------------------------------------------------------
  // Replies laid out as the prompt asks

  /**
    A marker placed after a text without it, followed by a body free of both
    markers and then by the end or by one of the markers, delimits exactly that body.
   */
  lemma SectionOfLayout(pre: string, m: string, body: string, post: string, t: string)
    requires SelfSeparating(m) && t != ""
    requires !Contains(pre, m) && !Contains(body, m) && !Contains(body, t)
    requires post == [] || (post[0] !in m[1..] && post[0] !in t[1..] && (StartsAt(post, m, 0) || StartsAt(post, t, 0)))
    ensures SectionAt(pre + m + body + post, m, t, |pre|, |pre| + |m| + |body|)
  {
    var s := pre + m + body + post;
    FirstAfterFree(pre, m, body + post);
    assert pre + m + (body + post) == s;
    var a := |pre| + |m|;
    var b := a + |body|;
    assert s[a..b] == body;
    forall k | a <= k < b
      ensures !StartsAt(s, m, k) && !StartsAt(s, t, k)
    {
      NoStartInFreeStretch(s, m, a, b, k);
      NoStartInFreeStretch(s, t, a, b, k);
    }
    if post != [] {
      assert s[b..|s|] == post;
      StartsAtSlice(s, m, b, |s|, 0);
      StartsAtSlice(s, t, b, |s|, 0);
    }
  }

  /** Markers never occur in `s`. */
  predicate NoMarker(s: string) {
    !Contains(s, ErrorsMarker) && !Contains(s, CorrectedMarker) && !Contains(s, ExplanationMarker)
  }

  /** `Errors:` followed by a marker-free body, then the end or a marker that ends it. */
  lemma ErrorsOfLayout(pre: string, body: string, post: string)
    requires !Contains(pre, ErrorsMarker) && !Contains(body, ErrorsMarker) && !Contains(body, CorrectedMarker)
    requires post == [] || StartsAt(post, CorrectedMarker, 0) || StartsAt(post, ErrorsMarker, 0)
    ensures ExtractErrors(pre + ErrorsMarker + body + post) == Some(Strip(body))
  {
    MarkersSeparate();
    var reply := pre + ErrorsMarker + body + post;
    var i := |pre|;
    var b := i + |ErrorsMarker| + |body|;
    SectionOfLayout(pre, ErrorsMarker, body, post, CorrectedMarker);
    ErrorsSection(reply, i, b);
    assert reply[i + |ErrorsMarker|..b] == body;
  }

  /** `Corrected code:` followed by a marker-free body, then the end or a marker that ends it. */
  lemma CorrectedOfLayout(pre: string, body: string, post: string)
    requires !Contains(pre, CorrectedMarker) && !Contains(body, CorrectedMarker) && !Contains(body, ExplanationMarker)
    requires post == [] || StartsAt(post, ExplanationMarker, 0) || StartsAt(post, CorrectedMarker, 0)
    ensures ExtractCorrected(pre + CorrectedMarker + body + post) == Some(Strip(body))
  {
    MarkersSeparate();
    var reply := pre + CorrectedMarker + body + post;
    var i := |pre|;
    var b := i + |CorrectedMarker| + |body|;
    SectionOfLayout(pre, CorrectedMarker, body, post, ExplanationMarker);
    CorrectedSection(reply, i, b);
    assert reply[i + |CorrectedMarker|..b] == body;
  }

  /** `Explanation:` followed by a body without it, then the end or a second `Explanation:`. */
  lemma ExplanationOfLayout(pre: string, body: string, post: string)
    requires !Contains(pre, ExplanationMarker) && !Contains(body, ExplanationMarker)
    requires post == [] || StartsAt(post, ExplanationMarker, 0)
    ensures ExtractExplanation(pre + ExplanationMarker + body + post) == Some(Strip(body))
  {
    MarkersSeparate();
    var reply := pre + ExplanationMarker + body + post;
    var i := |pre|;
    var b := i + |ExplanationMarker| + |body|;
    SectionOfLayout(pre, ExplanationMarker, body, post, ExplanationMarker);
    ExplanationSection(reply, i, b);
    assert reply[i + |ExplanationMarker|..b] == body;
  }

  /** The reply in the requested format: an optional preamble, then the three marked sections. */
  function Formatted(p: string, a: string, b: string, c: string): string {
    p + ErrorsMarker + a + CorrectedMarker + b + ExplanationMarker + c
  }

  lemma FormattedErrors(p: string, a: string, b: string, c: string)
    requires NoMarker(p) && NoMarker(a)
    ensures ExtractErrors(Formatted(p, a, b, c)) == Some(Strip(a))
  {
    var rest := CorrectedMarker + b + ExplanationMarker + c;
    assert StartsAt(rest, CorrectedMarker, 0);
    ErrorsOfLayout(p, a, rest);
    assert p + ErrorsMarker + a + rest == Formatted(p, a, b, c);
  }

  lemma FormattedCorrected(p: string, a: string, b: string, c: string)
    requires NoMarker(p) && NoMarker(a) && NoMarker(b)
    ensures ExtractCorrected(Formatted(p, a, b, c)) == Some(Strip(b))
  {
    MarkersSeparate();
    var pre := p + ErrorsMarker + a;
    ConcatFree(p, ErrorsMarker, a, CorrectedMarker);
    assert StartsAt(ExplanationMarker + c, ExplanationMarker, 0);
    CorrectedOfLayout(pre, b, ExplanationMarker + c);
    assert pre + CorrectedMarker + b + (ExplanationMarker + c) == Formatted(p, a, b, c);
  }

  lemma FormattedExplanation(p: string, a: string, b: string, c: string)
    requires NoMarker(p) && NoMarker(a) && NoMarker(b) && NoMarker(c)
    ensures ExtractExplanation(Formatted(p, a, b, c)) == Some(Strip(c))
  {
    MarkersSeparate();
    var pre := p + ErrorsMarker + a;
    ConcatFree(p, ErrorsMarker, a, ExplanationMarker);
    ConcatFree(pre, CorrectedMarker, b, ExplanationMarker);
    ExplanationOfLayout(pre + CorrectedMarker + b, c, []);
    assert pre + CorrectedMarker + b + ExplanationMarker + c + [] == Formatted(p, a, b, c);
  }

  /**
    A reply in the requested format gives back the three texts, stripped:
    `p + "Errors:" + a + "Corrected code:" + b + "Explanation:" + c`.
   */
  lemma SectionizeRoundTrip(p: string, a: string, b: string, c: string)
    requires NoMarker(p) && NoMarker(a) && NoMarker(b) && NoMarker(c)
    ensures Sectionize(Formatted(p, a, b, c)) == Sections(Some(Strip(a)), Some(Strip(b)), Some(Strip(c)))
  {
    FormattedErrors(p, a, b, c);
    FormattedCorrected(p, a, b, c);
    FormattedExplanation(p, a, b, c);
  }

  /** A reply with only `Corrected code:` has that section and neither of the others. */
  lemma OnlyCorrected(p: string, b: string)
    requires NoMarker(p) && NoMarker(b)
    ensures Sectionize(p + CorrectedMarker + b) == Sections(None, Some(Strip(b)), None)
  {
    MarkersSeparate();
    ConcatFree(p, CorrectedMarker, b, ErrorsMarker);
    ConcatFree(p, CorrectedMarker, b, ExplanationMarker);
    CorrectedOfLayout(p, b, []);
    assert p + CorrectedMarker + b + [] == p + CorrectedMarker + b;
  }

  /** A second `Explanation:` ends the explanation: what follows it is not shown. */
  lemma ExplanationEndsAtRepeat(p: string, c: string, d: string)
    requires !Contains(p, ExplanationMarker) && !Contains(c, ExplanationMarker)
    ensures ExtractExplanation(p + ExplanationMarker + c + ExplanationMarker + d) == Some(Strip(c))
  {
    assert StartsAt(ExplanationMarker + d, ExplanationMarker, 0);
    ExplanationOfLayout(p, c, ExplanationMarker + d);
    assert p + ExplanationMarker + c + (ExplanationMarker + d) == p + ExplanationMarker + c + ExplanationMarker + d;
  }

  /**
    Without `Corrected code:`, the errors section runs on through the
    explanation: the explanation text is shown in the errors tab as well.
   */
  lemma ErrorsAbsorbExplanation(p: string, a: string, c: string)
    requires NoMarker(p) && NoMarker(a) && NoMarker(c)
    ensures ExtractErrors(p + ErrorsMarker + a + ExplanationMarker + c) == Some(Strip(a + ExplanationMarker + c))
  {
    var body := a + ExplanationMarker + c;
    assert !Contains(body, ErrorsMarker) && !Contains(body, CorrectedMarker) by {
      MarkersSeparate();
      ConcatFree(a, ExplanationMarker, c, ErrorsMarker);
      ConcatFree(a, ExplanationMarker, c, CorrectedMarker);
    }
    ErrorsOfLayout(p, body, []);
    assert p + ErrorsMarker + body + [] == p + ErrorsMarker + a + ExplanationMarker + c;
  }

  /** Text without a capital `E` or `C` holds no marker. */
  lemma NoMarkerWithoutCapitals(s: string)
    requires 'E' !in s && 'C' !in s
    ensures NoMarker(s)
  {
    MissingFirstChar(s, ErrorsMarker);
    MissingFirstChar(s, CorrectedMarker);
    MissingFirstChar(s, ExplanationMarker);
  }

  /** One line of text between newlines: no marker inside, and `strip()` gives the line. */
  lemma Line(x: string)
    requires 'E' !in x && 'C' !in x && Trimmed(x)
    ensures NoMarker("\n" + x + "\n") && Strip("\n" + x + "\n") == x
  {
    NoMarkerWithoutCapitals("\n" + x + "\n");
    StripFramed("\n", x, "\n");
  }

  /** A reply to `print(1/0)` in the requested format, sectioned line by line. */
  lemma DivisionByZeroReply()
    ensures Sectionize("Errors:" + "\nDivision by zero\n" + "Corrected code:" + "\ntry/except added\n"
                       + "Explanation:" + "\nGuarded the division\n")
         == Sections(Some("Division by zero"), Some("try/except added"), Some("Guarded the division"))
  {
    DivisionByZeroSections();
    DivisionByZeroLines();
  }

  lemma DivisionByZeroSections()
    ensures Sectionize(Formatted("", "\n" + "Division by zero" + "\n", "\n" + "try/except added" + "\n",
                                 "\n" + "Guarded the division" + "\n"))
         == Sections(Some("Division by zero"), Some("try/except added"), Some("Guarded the division"))
  {
    DivisionByZeroBodies();
    NoMarkerWithoutCapitals("");
    SectionizeRoundTrip("", "\n" + "Division by zero" + "\n", "\n" + "try/except added" + "\n",
                        "\n" + "Guarded the division" + "\n");
  }

  lemma DivisionByZeroBodies()
    ensures NoMarker("\n" + "Division by zero" + "\n") && Strip("\n" + "Division by zero" + "\n") == "Division by zero"
    ensures NoMarker("\n" + "try/except added" + "\n") && Strip("\n" + "try/except added" + "\n") == "try/except added"
    ensures NoMarker("\n" + "Guarded the division" + "\n")
            && Strip("\n" + "Guarded the division" + "\n") == "Guarded the division"
  {
    TrimmedLine("Division by zero");
    TrimmedLine("try/except added");
    TrimmedLine("Guarded the division");
  }

  /** The three lines of the reply: no capital `E` or `C`, and nothing to strip. */
  lemma TrimmedLine(x: string)
    requires x in {"Division by zero", "try/except added", "Guarded the division"}
    ensures NoMarker("\n" + x + "\n") && Strip("\n" + x + "\n") == x
  {
    Line(x);
  }

  lemma DivisionByZeroLines()
    ensures Formatted("", "\n" + "Division by zero" + "\n", "\n" + "try/except added" + "\n",
                      "\n" + "Guarded the division" + "\n")
         == "Errors:" + "\nDivision by zero\n" + "Corrected code:" + "\ntry/except added\n"
            + "Explanation:" + "\nGuarded the division\n"
  {
    assert "\n" + "Division by zero" + "\n" == "\nDivision by zero\n";
    assert "\n" + "try/except added" + "\n" == "\ntry/except added\n";
    assert "\n" + "Guarded the division" + "\n" == "\nGuarded the division\n";
    assert "" + ErrorsMarker == "Errors:";
  }
}
