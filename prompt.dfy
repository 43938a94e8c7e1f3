/**
  The request sent to the model: a fixed instruction text with the chosen
  language's name and the user's code spliced in. The text asks for the three
  sections, headed by the very markers the sectionizer later splits on.
 */
module Prompt {
  import opened Wrappers
  import opened PyStr
  import opened Sectionizer

  /** The choices of the language select box, in their listed order. */
  datatype Language = Python | Java | C | Cpp | JavaScript {
    /** The label shown in the select box, which is also what the prompt names. */
    function Name(): string {
      match this
      case Python => "Python"
      case Java => "Java"
      case C => "C"
      case Cpp => "C++"
      case JavaScript => "JavaScript"
    }
  }

  const Languages: seq<Language> := [Python, Java, C, Cpp, JavaScript]

  /** No two choices share a label, so the label names the language. */
  lemma NamesDistinct(l: Language, l': Language)
    requires l != l'
    ensures l.Name() != l'.Name()
  {
    KeysDistinct(l, l');
  }

  const Opening: string := "\nYou are a concise programming assistant.\n\nGiven the following "
  const Instructions: string :=
    " code" + ", identify any errors, provide the corrected version, and briefly explain the changes.\n\nFormat your response in exactly 3 sections:\n"
  const FormatLines: string := ErrorsMarker + "\n" + CorrectedMarker + "\n" + ExplanationMarker + "\n"
  const Closing: string := "\nLimit your entire response to 6 lines or fewer.\nCODE:\n"

  /** Everything the prompt holds before the code. */
  function Preamble(language: Language): string {
    Opening + language.Name() + Instructions + FormatLines + Closing
  }

  /** The prompt for `code` in `language`: the preamble, the code verbatim, a final newline. */
  function BuildPrompt(language: Language, code: string): (prompt: string)
    ensures Preamble(language) <= prompt
    ensures |prompt| == |Preamble(language)| + |code| + 1 && prompt[|prompt| - 1] == '\n'
    ensures prompt[|Preamble(language)|..|prompt| - 1] == code
  {
    Preamble(language) + code + "\n"
  }

  /** Recovers language and code from a prompt, trying the languages in the listed order. */
  function ParseRequest(prompt: string): (request: Option<(Language, string)>)
    ensures request.Some? ==> prompt == BuildPrompt(request.value.0, request.value.1)
  {
    ParseAmong(prompt, Languages)
  }

  function ParseAmong(prompt: string, candidates: seq<Language>): (request: Option<(Language, string)>)
    ensures request.Some? ==> request.value.0 in candidates
    ensures request.Some? ==> prompt == BuildPrompt(request.value.0, request.value.1)
    decreases |candidates|
  {
    if candidates == [] then
      None
    else
      match Unframe(prompt, Preamble(candidates[0]))
      case Some(code) => Some((candidates[0], code))
      case None => ParseAmong(prompt, candidates[1..])
  }

  /** What lies between a leading `pre` and a final newline, if `prompt` has both. */
  function Unframe(prompt: string, pre: string): (code: Option<string>)
    ensures code.Some? <==> pre < prompt && prompt[|prompt| - 1] == '\n'
    ensures code.Some? ==> prompt == pre + code.value + "\n"
  {
    if pre < prompt && prompt[|prompt| - 1] == '\n' then
      var code := prompt[|pre|..|prompt| - 1];
      assert prompt == pre + code + "\n";
      Some(code)
    else
      None
  }

  lemma UnframeFramed(pre: string, code: string)
    ensures Unframe(pre + code + "\n", pre) == Some(code)
  {
    var p := pre + code + "\n";
    assert pre < p;
    assert p[|pre|..|p| - 1] == code;
  }

  /** The five characters after the opening: enough to tell the languages apart. */
  function Key(language: Language): string {
    (language.Name() + " code")[..5]
  }

  lemma KeysDistinct(l: Language, l': Language)
    requires l != l'
    ensures Key(l) != Key(l')
  {
    assert Key(Python)[0] == 'P' && Key(Java)[0] == 'J' && Key(JavaScript)[0] == 'J';
    assert Key(C)[0] == 'C' && Key(Cpp)[0] == 'C';
    assert Key(Java)[4] == ' ' && Key(JavaScript)[4] == 'S';
    assert Key(C)[1] == ' ' && Key(Cpp)[1] == '+';
  }

  lemma PreambleKey(l: Language)
    ensures |Preamble(l)| >= |Opening| + 5 && Preamble(l)[|Opening|..|Opening| + 5] == Key(l)
  {
    assert Instructions[..5] == " code";
    KeyOfParts(Opening, l.Name(), Instructions, FormatLines + Closing);
    assert Preamble(l) == Opening + l.Name() + Instructions + (FormatLines + Closing);
  }

  /** The five characters after `opening` are the name's, then those of `instructions`. */
  lemma KeyOfParts(opening: string, name: string, instructions: string, rest: string)
    requires |instructions| >= 5 && instructions[..5] == " code"
    ensures |opening + name + instructions + rest| >= |opening| + 5
    ensures (opening + name + instructions + rest)[|opening|..|opening| + 5] == (name + " code")[..5]
  {
    var s := opening + name + instructions + rest;
    var o := |opening|;
    forall d | 0 <= d < 5
      ensures s[o + d] == (name + " code")[d]
    {
      if d >= |name| {
        assert s[o + d] == instructions[d - |name|] == instructions[..5][d - |name|];
      }
    }
  }

  /** A prompt's preamble fixes the language: no other language's preamble begins it. */
  lemma PreambleDetermines(l: Language, l': Language, code: string)
    requires Preamble(l') <= BuildPrompt(l, code)
    ensures l' == l
  {
    var p := BuildPrompt(l, code);
    var o := |Opening|;
    PreambleKey(l);
    PreambleKey(l');
    CommonSlice(Preamble(l'), p, o, o + 5);
    CommonSlice(Preamble(l), p, o, o + 5);
    if l != l' {
      KeysDistinct(l, l');
    }
  }

  lemma CommonSlice(a: string, b: string, i: nat, j: nat)
    requires a <= b && i <= j <= |a|
    ensures a[i..j] == b[i..j]
  {
  }

  lemma {:induction false} ParseAmongBuilt(l: Language, code: string, candidates: seq<Language>)
    requires l in candidates
    ensures ParseAmong(BuildPrompt(l, code), candidates) == Some((l, code))
    decreases |candidates|
  {
    var p := BuildPrompt(l, code);
    if candidates[0] == l {
      UnframeFramed(Preamble(l), code);
    } else {
      if Preamble(candidates[0]) < p {
        PreambleDetermines(l, candidates[0], code);
      }
      assert l in candidates[1..];
      ParseAmongBuilt(l, code, candidates[1..]);
    }
  }

  /** Parsing a built prompt gives back the language and the code. */
  lemma ParseBuild(l: Language, code: string)
    ensures ParseRequest(BuildPrompt(l, code)) == Some((l, code))
  {
    ParseAmongBuilt(l, code, Languages);
  }

  /** Distinct requests give distinct prompts. */
  lemma BuildPromptInjective(l: Language, code: string, l': Language, code': string)
    requires BuildPrompt(l, code) == BuildPrompt(l', code')
    ensures l == l' && code == code'
  {
    ParseBuild(l, code);
    ParseBuild(l', code');
  }

  /**
    The prompt spells out all three markers, so a reply that merely echoes it
    fills every tab and shows none of the fallbacks.
   */
  lemma PromptHasMarkers(l: Language, code: string)
    ensures Contains(BuildPrompt(l, code), ErrorsMarker)
    ensures Contains(BuildPrompt(l, code), CorrectedMarker)
    ensures Contains(BuildPrompt(l, code), ExplanationMarker)
    ensures Render(BuildPrompt(l, code)).errors.style == ErrorBox
    ensures Render(BuildPrompt(l, code)).corrected.style == CodeBlock
    ensures Render(BuildPrompt(l, code)).explanation.style == SuccessBox
    ensures exists e, c, x :: e < c < x && StartsAt(BuildPrompt(l, code), ErrorsMarker, e)
                              && StartsAt(BuildPrompt(l, code), CorrectedMarker, c)
                              && StartsAt(BuildPrompt(l, code), ExplanationMarker, x)
  {
    var head := Opening + l.Name() + Instructions;
    Regroup(Opening + l.Name(), Instructions, FormatLines, Closing, code, "\n");
    FormatLinesMarkers(head, Closing + code + "\n");
  }

  lemma Regroup(a: string, b: string, c: string, d: string, e: string, f: string)
    ensures a + b + c + d + e + f == (a + b) + c + (d + e + f)
  {
  }

  /** Any text with the format lines in it contains each marker. */
  lemma FormatLinesMarkers(head: string, tail: string)
    ensures Contains(head + FormatLines + tail, ErrorsMarker)
    ensures Contains(head + FormatLines + tail, CorrectedMarker)
    ensures Contains(head + FormatLines + tail, ExplanationMarker)
    ensures exists e, c, x :: e < c < x && StartsAt(head + FormatLines + tail, ErrorsMarker, e)
                              && StartsAt(head + FormatLines + tail, CorrectedMarker, c)
                              && StartsAt(head + FormatLines + tail, ExplanationMarker, x)
  {
    var s := head + FormatLines + tail;
    var e := |head|;
    var c := e + |ErrorsMarker| + 1;
    var x := c + |CorrectedMarker| + 1;
    assert s == head + ErrorsMarker + ("\n" + CorrectedMarker + "\n" + ExplanationMarker + "\n" + tail);
    assert StartsAt(s, ErrorsMarker, e);
    assert s == head + ErrorsMarker + "\n" + CorrectedMarker + ("\n" + ExplanationMarker + "\n" + tail);
    assert StartsAt(s, CorrectedMarker, c);
    assert s == head + ErrorsMarker + "\n" + CorrectedMarker + "\n" + ExplanationMarker + ("\n" + tail);
    assert StartsAt(s, ExplanationMarker, x);
  }
}
