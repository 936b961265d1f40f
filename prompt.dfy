/** The prompt that the translation page sends: the user's template with its
    six placeholders substituted, or a built-in prompt when the substitution
    would lose the source text (script.js, `handleTranslation` and
    `constructFallbackPrompt`). */
module Prompt {
  import opened Wrappers
  import opened Seqs
  import opened Text
  import Template

  /** The value the page uses for every optional field left empty. */
  const NoneProvided := "None provided."
  const DefaultSourceLanguage := "Japanese"
  const DefaultTargetLanguage := "English"
  const SummaryHeader := "--- Previous Chapter Summary ---"

  /** The fields of the translation form as the page reads them, untrimmed.
      `targetLanguage` is the text of the target-language element, `None`
      when there is no such element; `summary` is the summary field, `None`
      when there is no summary field. */
  datatype Form = Form(text: string, template: string, fandomContext: string, notes: string,
                       sourceLanguage: string, targetLanguage: Option<string>,
                       summary: Option<string>)

  /** `s || fallback` for a string `s`. */
  function OrElse(s: string, fallback: string): (r: string)
    ensures r != "" <== fallback != ""
    ensures s != "" ==> r == s
    ensures s == "" ==> r == fallback
  {
    if s == "" then fallback else s
  }

  // ---------------------------------------------------------------------------
  // The built-in prompt
  // ---------------------------------------------------------------------------

  /** The sections of the built-in prompt, each one paragraph. */
  datatype Section =
    | Task(sourceLanguage: string, targetLanguage: string)
    | FandomContext(fandomContext: string)
    | ChapterSummary(summary: string)
    | TranslatorNotes(notes: string)
    | SourceText(language: string, text: string)
    | Guidelines(targetLanguage: string)

  /** The position each kind of section takes in the prompt. */
  function Rank(s: Section): nat
  {
    match s
    case Task(_, _) => 0
    case FandomContext(_) => 1
    case ChapterSummary(_) => 2
    case TranslatorNotes(_) => 3
    case SourceText(_, _) => 4
    case Guidelines(_) => 5
  }

  function SourceHeading(language: string): string
  {
    "--- Source Text (" + language + ") ---\n"
  }

  function RenderSection(s: Section): string
  {
    match s
    case Task(src, tgt) =>
      "Faithfully translate the following text from " + src + " into " + tgt
      + ", ensuring the result reads naturally and authentically in the target language"
      + " while preserving the spirit of the original."
    case FandomContext(v) => "--- Fandom Context ---\n" + v
    case ChapterSummary(v) => SummaryHeader + "\n" + v
    case TranslatorNotes(v) => "--- Translator Notes & Special Instructions ---\n" + v
    case SourceText(language, text) => SourceHeading(language) + text
    case Guidelines(tgt) =>
      "--- Translation Guidelines ---\n"
      + "- Preserve the original tone, narrative style, character voices, and subtle nuances.\n"
      + "- Adapt cultural references thoughtfully to ensure clarity and resonance for an " + tgt
      + "-speaking audience, without distorting the original intent.\n"
      + "- Ensure the translation is both accurate and fluent in " + tgt + ".\n"
      + "- Carefully follow any specific instructions provided in the Translator Notes.\n"
      + "- Begin the translation now."
  }

  function RenderSections(ss: seq<Section>): seq<string>
  {
    seq(|ss|, i requires 0 <= i < |ss| => RenderSection(ss[i]))
  }

  /** An optional field counts when it is non-empty and not the default. */
  predicate Provided(v: string)
  {
    v != "" && v != NoneProvided
  }

  function Optional(present: bool, s: Section): seq<Section>
  {
    if present then [s] else []
  }

  function Sections(sourceLanguage: string, targetLanguage: string, fandomContext: string,
                    summary: string, notes: string, text: string): seq<Section>
  {
    [Task(sourceLanguage, targetLanguage)]
    + Optional(Provided(fandomContext), FandomContext(fandomContext))
    + Optional(Provided(summary), ChapterSummary(summary))
    + Optional(Provided(notes), TranslatorNotes(notes))
    + [SourceText(sourceLanguage, text), Guidelines(targetLanguage)]
  }

  /** The opening line of the built-in prompt and the blank line after it. */
  function Intro(sourceLanguage: string, targetLanguage: string): string
  {
    "You are an expert fanfiction translator performing translation from " + sourceLanguage
    + " to " + targetLanguage + "." + "\n\n"
  }

  function ConstructFallbackPrompt(sourceLanguage: string, targetLanguage: string, fandomContext: string,
                                   summary: string, notes: string, text: string): string
  {
    Intro(sourceLanguage, targetLanguage) + Join(RenderSections(Sections(sourceLanguage, targetLanguage, fandomContext, summary, notes, text)), "\n\n")
  }

  /** The sections come in the fixed order task, fandom context, summary,
      notes, source text, guidelines, and the task, source-text and
      guidelines sections are always there. */
  lemma SectionsOrder(sourceLanguage: string, targetLanguage: string, fandomContext: string,
                      summary: string, notes: string, text: string)
    ensures var ss := Sections(sourceLanguage, targetLanguage, fandomContext, summary, notes, text);
      && (forall i, j | 0 <= i < j < |ss| :: Rank(ss[i]) < Rank(ss[j]))
      && ss[0] == Task(sourceLanguage, targetLanguage)
      && ss[|ss| - 2] == SourceText(sourceLanguage, text)
      && ss[|ss| - 1] == Guidelines(targetLanguage)
  {
    var a := Optional(Provided(fandomContext), FandomContext(fandomContext));
    var b := Optional(Provided(summary), ChapterSummary(summary));
    var c := Optional(Provided(notes), TranslatorNotes(notes));
    var ss := Sections(sourceLanguage, targetLanguage, fandomContext, summary, notes, text);
    assert forall i | 0 <= i < |ss| ::
      Rank(ss[i]) == if i == 0 then 0
                    else if i <= |a| then 1
                    else if i <= |a| + |b| then 2
                    else if i <= |a| + |b| + |c| then 3
                    else if i == |ss| - 2 then 4
                    else 5;
  }

  /** Each optional section is there exactly when its field is provided, and
      then it carries that field. */
  lemma SectionsPresence(sourceLanguage: string, targetLanguage: string, fandomContext: string,
                         summary: string, notes: string, text: string)
    ensures var ss := Sections(sourceLanguage, targetLanguage, fandomContext, summary, notes, text);
      && (FandomContext(fandomContext) in ss <==> Provided(fandomContext))
      && (ChapterSummary(summary) in ss <==> Provided(summary))
      && (TranslatorNotes(notes) in ss <==> Provided(notes))
      && (forall s | s in ss && s.FandomContext? :: s == FandomContext(fandomContext))
      && (forall s | s in ss && s.ChapterSummary? :: s == ChapterSummary(summary))
      && (forall s | s in ss && s.TranslatorNotes? :: s == TranslatorNotes(notes))
  {
    var a := Optional(Provided(fandomContext), FandomContext(fandomContext));
    var b := Optional(Provided(summary), ChapterSummary(summary));
    var c := Optional(Provided(notes), TranslatorNotes(notes));
    var ends := [SourceText(sourceLanguage, text), Guidelines(targetLanguage)];
    var ss := Sections(sourceLanguage, targetLanguage, fandomContext, summary, notes, text);
    assert ss == [Task(sourceLanguage, targetLanguage)] + a + b + c + ends;
    assert forall s | s in ss :: s in [Task(sourceLanguage, targetLanguage)] || s in a || s in b || s in c || s in ends;
  }

  /** The built-in prompt always carries the source-text section, and so the
      text itself, and each provided optional field under its heading. */
  lemma FallbackContainsSource(sourceLanguage: string, targetLanguage: string, fandomContext: string,
                               summary: string, notes: string, text: string)
    ensures var p := ConstructFallbackPrompt(sourceLanguage, targetLanguage, fandomContext, summary, notes, text);
      && Contains(p, SourceHeading(sourceLanguage) + text)
      && Contains(p, text)
      && (Provided(fandomContext) ==> Contains(p, "--- Fandom Context ---\n" + fandomContext))
      && (Provided(summary) ==> Contains(p, SummaryHeader + "\n" + summary))
      && (Provided(notes) ==> Contains(p, "--- Translator Notes & Special Instructions ---\n" + notes))
  {
    FallbackContainsText(sourceLanguage, targetLanguage, fandomContext, summary, notes, text);
    if Provided(fandomContext) {
      FallbackContainsFandom(sourceLanguage, targetLanguage, fandomContext, summary, notes, text);
    }
    if Provided(summary) {
      FallbackContainsSummary(sourceLanguage, targetLanguage, fandomContext, summary, notes, text);
    }
    if Provided(notes) {
      FallbackContainsNotes(sourceLanguage, targetLanguage, fandomContext, summary, notes, text);
    }
  }

  lemma FallbackContainsText(sourceLanguage: string, targetLanguage: string, fandomContext: string,
                             summary: string, notes: string, text: string)
    ensures var p := ConstructFallbackPrompt(sourceLanguage, targetLanguage, fandomContext, summary, notes, text);
      Contains(p, SourceHeading(sourceLanguage) + text) && Contains(p, text)
  {
    var p := ConstructFallbackPrompt(sourceLanguage, targetLanguage, fandomContext, summary, notes, text);
    FallbackContainsRendered(sourceLanguage, targetLanguage, fandomContext, summary, notes, text);
    HeadedContains(SourceHeading(sourceLanguage), text);
    ContainsTrans(p, SourceHeading(sourceLanguage) + text, text);
  }

  lemma FallbackContainsRendered(sourceLanguage: string, targetLanguage: string, fandomContext: string,
                                 summary: string, notes: string, text: string)
    ensures Contains(ConstructFallbackPrompt(sourceLanguage, targetLanguage, fandomContext, summary, notes, text),
                     SourceHeading(sourceLanguage) + text)
  {
    SourceInSections(sourceLanguage, targetLanguage, fandomContext, summary, notes, text);
    FallbackContainsSection(sourceLanguage, targetLanguage, fandomContext, summary, notes, text,
                            SourceText(sourceLanguage, text));
  }

  lemma HeadedContains(heading: string, t: string)
    ensures Contains(heading + t, t)
  {
    ContainsMiddle(heading, t, []);
    assert heading + t + [] == heading + t;
  }

  lemma SourceInSections(sourceLanguage: string, targetLanguage: string, fandomContext: string,
                         summary: string, notes: string, text: string)
    ensures SourceText(sourceLanguage, text) in Sections(sourceLanguage, targetLanguage, fandomContext, summary, notes, text)
  {
    var ss := Sections(sourceLanguage, targetLanguage, fandomContext, summary, notes, text);
    assert ss[|ss| - 2] == SourceText(sourceLanguage, text);
  }

  lemma FallbackContainsFandom(sourceLanguage: string, targetLanguage: string, fandomContext: string,
                               summary: string, notes: string, text: string)
    requires Provided(fandomContext)
    ensures Contains(ConstructFallbackPrompt(sourceLanguage, targetLanguage, fandomContext, summary, notes, text), "--- Fandom Context ---\n" + fandomContext)
  {
    assert Sections(sourceLanguage, targetLanguage, fandomContext, summary, notes, text)[1] == FandomContext(fandomContext);
    FallbackContainsSection(sourceLanguage, targetLanguage, fandomContext, summary, notes, text, FandomContext(fandomContext));
  }

  lemma FallbackContainsSummary(sourceLanguage: string, targetLanguage: string, fandomContext: string,
                               summary: string, notes: string, text: string)
    requires Provided(summary)
    ensures Contains(ConstructFallbackPrompt(sourceLanguage, targetLanguage, fandomContext, summary, notes, text), SummaryHeader + "\n" + summary)
  {
    SummaryInSections(sourceLanguage, targetLanguage, fandomContext, summary, notes, text);
    FallbackContainsSection(sourceLanguage, targetLanguage, fandomContext, summary, notes, text, ChapterSummary(summary));
  }

  lemma SummaryInSections(sourceLanguage: string, targetLanguage: string, fandomContext: string,
                                 summary: string, notes: string, text: string)
    requires Provided(summary)
    ensures ChapterSummary(summary) in Sections(sourceLanguage, targetLanguage, fandomContext, summary, notes, text)
  {
    var before := [Task(sourceLanguage, targetLanguage)]
      + Optional(Provided(fandomContext), FandomContext(fandomContext));
    assert Sections(sourceLanguage, targetLanguage, fandomContext, summary, notes, text)[|before|] == ChapterSummary(summary);
  }

  lemma FallbackContainsNotes(sourceLanguage: string, targetLanguage: string, fandomContext: string,
                               summary: string, notes: string, text: string)
    requires Provided(notes)
    ensures Contains(ConstructFallbackPrompt(sourceLanguage, targetLanguage, fandomContext, summary, notes, text),
                     "--- Translator Notes & Special Instructions ---\n" + notes)
  {
    NotesInSections(sourceLanguage, targetLanguage, fandomContext, summary, notes, text);
    FallbackContainsSection(sourceLanguage, targetLanguage, fandomContext, summary, notes, text, TranslatorNotes(notes));
  }

  lemma NotesInSections(sourceLanguage: string, targetLanguage: string, fandomContext: string,
                               summary: string, notes: string, text: string)
    requires Provided(notes)
    ensures TranslatorNotes(notes) in Sections(sourceLanguage, targetLanguage, fandomContext, summary, notes, text)
  {
    var before := [Task(sourceLanguage, targetLanguage)]
      + Optional(Provided(fandomContext), FandomContext(fandomContext))
      + Optional(Provided(summary), ChapterSummary(summary));
    assert Sections(sourceLanguage, targetLanguage, fandomContext, summary, notes, text)[|before|] == TranslatorNotes(notes);
  }

  /** Every section of the built-in prompt appears in it, rendered. */
  lemma FallbackContainsSection(sourceLanguage: string, targetLanguage: string, fandomContext: string,
                                summary: string, notes: string, text: string, s: Section)
    requires s in Sections(sourceLanguage, targetLanguage, fandomContext, summary, notes, text)
    ensures Contains(ConstructFallbackPrompt(sourceLanguage, targetLanguage, fandomContext, summary, notes, text),
                     RenderSection(s))
  {
    var parts := RenderSections(Sections(sourceLanguage, targetLanguage, fandomContext, summary, notes, text));
    RenderedIn(Sections(sourceLanguage, targetLanguage, fandomContext, summary, notes, text), s);
    PartContained(Intro(sourceLanguage, targetLanguage), parts, RenderSection(s));
  }

  lemma RenderedIn(ss: seq<Section>, s: Section)
    requires s in ss
    ensures RenderSection(s) in RenderSections(ss)
  {
    var i :| 0 <= i < |ss| && ss[i] == s;
    assert RenderSections(ss)[i] == RenderSection(s);
  }

  /** A part of a paragraph-joined text is in it, whatever comes before. */
  lemma PartContained(intro: string, parts: seq<string>, t: string)
    requires t in parts
    ensures Contains(intro + Join(parts, "\n\n"), t)
  {
    var i :| 0 <= i < |parts| && parts[i] == t;
    JoinContains(parts, "\n\n", i);
    ContainsRight(intro, Join(parts, "\n\n"), t);
  }

  // ---------------------------------------------------------------------------
  // The prompt that is sent
  // ---------------------------------------------------------------------------

  /** The substituted template when it mentions `{source_text}` and the result
      still contains the text; the built-in prompt otherwise. */
  function BuildPrompt(text: string, template: string, sourceLanguage: string, targetLanguage: string,
                       fandomContext: string, notes: string, summary: string): (r: string)
    ensures Contains(r, text)
    ensures var substituted := Template.Substitute(template, sourceLanguage, targetLanguage, fandomContext,
                                                   notes, text, summary);
      && (Contains(template, Template.SourceTextPlaceholder) && Contains(substituted, text) ==> r == substituted)
      && (!Contains(template, Template.SourceTextPlaceholder) || !Contains(substituted, text) ==>
            r == ConstructFallbackPrompt(sourceLanguage, targetLanguage, fandomContext, summary, notes, text))
  {
    var substituted := Template.Substitute(template, sourceLanguage, targetLanguage, fandomContext, notes, text, summary);
    if !Contains(template, Template.SourceTextPlaceholder) || !Contains(substituted, text) then
      FallbackContainsSource(sourceLanguage, targetLanguage, fandomContext, summary, notes, text);
      ConstructFallbackPrompt(sourceLanguage, targetLanguage, fandomContext, summary, notes, text)
    else
      substituted
  }

  /** A template with a `{source_text}` slot, whose literal text and field
      values cannot start a placeholder, is the prompt sent, with every slot
      filled by its field: the built-in prompt is not used. */
  lemma TemplateSent(ps: seq<Template.Piece>, f: Template.Fields)
    requires Template.WellFormed(ps) && Template.FieldsInert(f)
    requires Template.Slot(Template.SourceText) in ps
    ensures BuildPrompt(f.text, Template.Render(ps), f.sourceLanguage, f.targetLanguage, f.fandomContext,
                        f.notes, f.summary)
         == Template.Filled(ps, f)
  {
    Template.SourceSlotFilled(ps, f);
  }

  /** The form fields trimmed and defaulted, then the prompt built from them;
      an empty text is refused before anything else happens. */
  function PreparePrompt(f: Form): (r: Result<string, string>)
    ensures r.Failure? <==> Blank(f.text, JsSpace)
    ensures r.Failure? ==> r.error == "Please enter text to translate."
    ensures r.Success? ==> Contains(r.value, Trim(f.text, JsSpace))
  {
    TrimEmpty(f.text, JsSpace);
    var text := Trim(f.text, JsSpace);
    if text == "" then Failure("Please enter text to translate.")
    else
      var targetLanguage := match f.targetLanguage
        case None => DefaultTargetLanguage
        case Some(t) => OrElse(t, DefaultTargetLanguage);
      var summary := match f.summary
        case None => NoneProvided
        case Some(s) => OrElse(Trim(s, JsSpace), NoneProvided);
      Success(BuildPrompt(text, Trim(f.template, JsSpace),
                          OrElse(Trim(f.sourceLanguage, JsSpace), DefaultSourceLanguage), targetLanguage,
                          OrElse(Trim(f.fandomContext, JsSpace), NoneProvided),
                          OrElse(Trim(f.notes, JsSpace), NoneProvided), summary))
  }

  /** Fields left empty take the page's defaults: the source language is
      Japanese, the target language English, and the fandom context, notes
      and summary are `None provided.`. */
  lemma EmptyFieldsDefaulted(f: Form)
    requires !Blank(f.text, JsSpace)
    requires Blank(f.fandomContext, JsSpace) && Blank(f.notes, JsSpace) && Blank(f.sourceLanguage, JsSpace)
    requires f.targetLanguage.None? || f.targetLanguage == Some("")
    requires f.summary.None? || Blank(f.summary.value, JsSpace)
    ensures PreparePrompt(f)
         == Success(BuildPrompt(Trim(f.text, JsSpace), Trim(f.template, JsSpace), DefaultSourceLanguage,
                                DefaultTargetLanguage, NoneProvided, NoneProvided, NoneProvided))
  {
    TrimEmpty(f.text, JsSpace);
    TrimEmpty(f.fandomContext, JsSpace);
    TrimEmpty(f.notes, JsSpace);
    TrimEmpty(f.sourceLanguage, JsSpace);
    if f.summary.Some? {
      TrimEmpty(f.summary.value, JsSpace);
    }
  }
}
