/**
 * The prompt side of the plugin (src/main.ts): the settings record and its defaults, the
 * fallback for an emptied heading setting, and `fillDailyNote`, which renders the answers to
 * the configured questions into one section body and hands it to `updateSection`.
 */
module DailyPrompt {
  import opened Wrappers
  import opened Text
  import opened FileUtils

  /** `IReviewSettings`. The question style is kept as the string the settings dropdown
      stores: "Bold" or "No style". */
  datatype Settings = Settings(
    questions: seq<string>,
    dailyNotesFolder: string,
    promptSectionHeading: string,
    linePrefix: string,
    includeQuestions: bool,
    questionStyle: string)

  const DefaultHeading: string := "## Prompts"

  /** `DEFAULT_SETTINGS`. */
  const DefaultSettings: Settings := Settings(["Example prompt"], "", DefaultHeading, "", true, "Bold")

  /** The default heading is a level-2 heading line that is its own trim and a single line,
      so the scan finds it again in a note written with it. */
  lemma {:induction false} DefaultHeadingIsSectionHeading()
    ensures HeadingLevel(DefaultHeading) == Some(2)
    ensures Trim(DefaultHeading) == DefaultHeading && '\n' !in DefaultHeading
  {
    var h := DefaultHeading;
    assert HashRun(h[3..]) == 0;
    assert h[1..][1..] == h[2..];
    assert HashRun(h) == 2;
    assert !IsSpace(h[2..][1]);
    TrimOfTrimmed(h);
  }

  /* ---------------- The heading setting (src/main.ts, lines 143-147) ---------------- */

  /** What the heading text box stores for the value typed into it. */
  function HeadingSettingValue(value: string): (stored: string)
    ensures stored != ""
  {
    if value == "" then DefaultHeading else value
  }

  /** A typed heading is stored as typed; emptying the box stores the default heading, a
      level-2 heading, instead of an empty one. */
  lemma {:induction false} EmptiedHeadingIsDefault(value: string)
    ensures HeadingSettingValue(value) == value <==> value != ""
    ensures value == "" ==> HeadingSettingValue(value) == DefaultSettings.promptSectionHeading
    ensures value == "" ==> HeadingLevel(HeadingSettingValue(value)) == Some(2)
  {
    DefaultHeadingIsSectionHeading();
  }

  /* ---------------- Rendering the answers (src/main.ts, lines 93-104) ---------------- */

  /** `answers[i]` inside JavaScript string concatenation: past the end of the array the
      element is `undefined`, which concatenates as the text "undefined". */
  function AnswerAt(answers: seq<string>, i: nat): string {
    if i < |answers| then answers[i] else "undefined"
  }

  /** The question part of a block: nothing when questions are not included, the question in
      bold on its own line for style "Bold", else the question on its own line. */
  function QuestionLine(settings: Settings, question: string): string {
    if !settings.includeQuestions then ""
    else if settings.questionStyle == "Bold" then "**" + question + "**\n"
    else question + "\n"
  }

  /** What one iteration of the loop appends. */
  function Block(settings: Settings, question: string, answer: string): string {
    QuestionLine(settings, question) + settings.linePrefix + answer + "\n\n"
  }

  /** The blocks of the first `n` questions, in order. */
  function Blocks(settings: Settings, answers: seq<string>, n: nat): (bs: seq<string>)
    requires n <= |settings.questions|
    ensures |bs| == n
  {
    seq(n, i requires 0 <= i < n => Block(settings, settings.questions[i], AnswerAt(answers, i)))
  }

  /** Strings appended one after the other, the way `+=` builds them. */
  function Concat(parts: seq<string>): string {
    if |parts| == 0 then "" else Concat(parts[..|parts| - 1]) + parts[|parts| - 1]
  }

  /** The loop's first `+=` appends the question part of the block, in each of its branches. */
  lemma {:induction false} QuestionLineAppended(before: string, settings: Settings, question: string)
    ensures settings.includeQuestions && settings.questionStyle == "Bold" ==>
              before + "**" + question + "**\n" == before + QuestionLine(settings, question)
    ensures settings.includeQuestions && settings.questionStyle != "Bold" ==>
              before + question + "\n" == before + QuestionLine(settings, question)
    ensures !settings.includeQuestions ==> before == before + QuestionLine(settings, question)
  {
    if settings.includeQuestions && settings.questionStyle == "Bold" {
      assert before + "**" + question + "**\n" == before + ("**" + question + "**\n");
    }
  }

  /** The loop's second `+=` completes the block its first `+=` started. */
  lemma {:induction false} BlockAppended(before: string, settings: Settings, question: string, answer: string)
    ensures before + QuestionLine(settings, question) + settings.linePrefix + answer + "\n\n" ==
            before + Block(settings, question, answer)
  {
  }

  /** `resultString` after the loop: the blocks of all the questions. */
  function RenderedBody(settings: Settings, answers: seq<string>): string {
    Concat(Blocks(settings, answers, |settings.questions|))
  }

  /** An independent reading of the body: the block of question `i`, then the body of the
      questions after it. */
  function RenderFrom(settings: Settings, answers: seq<string>, i: nat): string
    requires i <= |settings.questions|
    decreases |settings.questions| - i
  {
    if i == |settings.questions| then ""
    else Block(settings, settings.questions[i], AnswerAt(answers, i)) + RenderFrom(settings, answers, i + 1)
  }

  lemma {:induction false} ConcatSnoc(parts: seq<string>, last: string)
    ensures Concat(parts + [last]) == Concat(parts) + last
  {
    assert (parts + [last])[..|parts|] == parts;
  }

  lemma {:induction false} BlocksPrefix(settings: Settings, answers: seq<string>, n: nat)
    requires n < |settings.questions|
    ensures Blocks(settings, answers, n + 1) ==
            Blocks(settings, answers, n) + [Block(settings, settings.questions[n], AnswerAt(answers, n))]
  {
  }

  /** One more question: one more block at the end. */
  lemma {:induction false} RenderStep(settings: Settings, answers: seq<string>, n: nat)
    requires n < |settings.questions|
    ensures Concat(Blocks(settings, answers, n + 1)) ==
            Concat(Blocks(settings, answers, n)) + Block(settings, settings.questions[n], AnswerAt(answers, n))
  {
    BlocksPrefix(settings, answers, n);
    ConcatSnoc(Blocks(settings, answers, n), Block(settings, settings.questions[n], AnswerAt(answers, n)));
  }

  lemma {:induction false} RenderFromSplit(settings: Settings, answers: seq<string>, k: nat)
    requires k <= |settings.questions|
    ensures Concat(Blocks(settings, answers, k)) + RenderFrom(settings, answers, k) == RenderedBody(settings, answers)
    decreases |settings.questions| - k
  {
    if k < |settings.questions| {
      RenderStep(settings, answers, k);
      RenderFromSplit(settings, answers, k + 1);
    }
  }

  /** The body is exactly one block per configured question, in question order: the first
      question's block followed by the body of the others. */
  lemma {:induction false} RenderedBodyIsBlocksInOrder(settings: Settings, answers: seq<string>)
    ensures RenderedBody(settings, answers) == RenderFrom(settings, answers, 0)
  {
    RenderFromSplit(settings, answers, 0);
  }

  /** No questions, nothing to write. */
  lemma {:induction false} RenderedBodyOfNoQuestions(settings: Settings, answers: seq<string>)
    requires settings.questions == []
    ensures RenderedBody(settings, answers) == ""
  {
    assert Blocks(settings, answers, 0) == [];
  }

  /** The three shapes a block takes, by the two style settings. */
  lemma {:induction false} BlockShapes(settings: Settings, question: string, answer: string)
    ensures settings.includeQuestions && settings.questionStyle == "Bold" ==>
              Block(settings, question, answer) == "**" + question + "**\n" + settings.linePrefix + answer + "\n\n"
    ensures settings.includeQuestions && settings.questionStyle != "Bold" ==>
              Block(settings, question, answer) == question + "\n" + settings.linePrefix + answer + "\n\n"
    ensures !settings.includeQuestions ==>
              Block(settings, question, answer) == settings.linePrefix + answer + "\n\n"
  {
  }

  /** Only the first `|questions|` answers are read: answers past the last question change
      nothing, and a missing answer is written as "undefined". */
  lemma {:induction false} ExtraAnswersIgnored(settings: Settings, answers: seq<string>, extra: seq<string>)
    requires |answers| >= |settings.questions|
    ensures RenderedBody(settings, answers + extra) == RenderedBody(settings, answers)
  {
    var n := |settings.questions|;
    assert Blocks(settings, answers + extra, n) == Blocks(settings, answers, n);
  }

  /** Fewer answers than questions: each missing answer renders as if the text "undefined"
      had been typed for it. */
  lemma {:induction false} MissingAnswersRenderUndefined(settings: Settings, answers: seq<string>)
    requires |answers| <= |settings.questions|
    ensures RenderedBody(settings, answers) ==
            RenderedBody(settings, answers + seq(|settings.questions| - |answers|, _ => "undefined"))
  {
    var n := |settings.questions|;
    var padded := answers + seq(n - |answers|, _ => "undefined");
    forall i | 0 <= i < n
      ensures AnswerAt(answers, i) == AnswerAt(padded, i)
    {
    }
    assert Blocks(settings, answers, n) == Blocks(settings, padded, n);
  }

  /** Without questions in the note, the body depends on how many questions there are, not on
      their text. */
  lemma {:induction false} QuestionTextUnusedWhenExcluded(settings: Settings, answers: seq<string>, others: seq<string>)
    requires !settings.includeQuestions && |others| == |settings.questions|
    ensures RenderedBody(settings.(questions := others), answers) == RenderedBody(settings, answers)
  {
    var n := |others|;
    assert Blocks(settings.(questions := others), answers, n) == Blocks(settings, answers, n);
  }

  /** With the default settings, one answer gives the bold example prompt over the answer. */
  lemma {:induction false} DefaultRendering(answer: string)
    ensures RenderedBody(DefaultSettings, [answer]) == "**Example prompt**\n" + answer + "\n\n"
  {
    RenderStep(DefaultSettings, [answer], 0);
    assert Concat(Blocks(DefaultSettings, [answer], 0)) == "" by {
      assert Blocks(DefaultSettings, [answer], 0) == [];
    }
    DefaultBlock(answer);
  }

  lemma {:induction false} DefaultBlock(answer: string)
    ensures Block(DefaultSettings, "Example prompt", answer) == "**Example prompt**\n" + answer + "\n\n"
  {
    assert QuestionLine(DefaultSettings, "Example prompt") == "**Example prompt**\n";
  }

  /* ---------------- Writing the body into the note (src/main.ts, lines 105-110) ---------------- */

  /** The note after `fillDailyNote`: the body replaces the section under the configured
      heading, or is appended under it. */
  function FilledNote(note: string, settings: Settings, answers: seq<string>): string {
    UpdatedContents(note, settings.promptSectionHeading, RenderedBody(settings, answers))
  }

  /** Answering the prompt again replaces the previous answers, provided the body's lines
      neither repeat the heading nor open a sibling or ancestor section. */
  lemma {:induction false} FillAgainReplaces(note: string, settings: Settings, first: seq<string>, second: seq<string>)
    requires Trim(settings.promptSectionHeading) == settings.promptSectionHeading
    requires '\n' !in settings.promptSectionHeading
    requires StaysInSection(RenderedBody(settings, first), settings.promptSectionHeading)
    ensures FilledNote(FilledNote(note, settings, first), settings, second) == FilledNote(note, settings, second)
  {
    UpdateTwice(note, settings.promptSectionHeading, RenderedBody(settings, first), RenderedBody(settings, second));
  }

  /** With the default heading, the conditions on the heading hold by themselves. */
  lemma {:induction false} FillAgainReplacesUnderDefaultHeading(note: string, settings: Settings, first: seq<string>, second: seq<string>)
    requires settings.promptSectionHeading == DefaultHeading
    requires StaysInSection(RenderedBody(settings, first), DefaultHeading)
    ensures FilledNote(FilledNote(note, settings, first), settings, second) == FilledNote(note, settings, second)
  {
    DefaultHeadingIsSectionHeading();
    FillAgainReplaces(note, settings, first, second);
  }

  /** Into a note without the heading, the body goes at the end under the heading. */
  lemma {:induction false} FillAppendsToNoteWithoutHeading(note: string, settings: Settings, answers: seq<string>)
    requires forall j :: 0 <= j < |Split(note)| ==> !Matches(Split(note)[j], settings.promptSectionHeading)
    ensures FilledNote(note, settings, answers) ==
            note + "\n\n" + settings.promptSectionHeading + "\n" + RenderedBody(settings, answers)
  {
    UpdateAppendsWhenAbsent(note, settings.promptSectionHeading, RenderedBody(settings, answers));
  }

  /** The plugin object and the state its settings handlers and prompt command use. */
  class Plugin {
    var settings: Settings

    /** `onload` with nothing saved yet: the defaults. */
    constructor ()
      ensures settings == DefaultSettings
    {
      settings := DefaultSettings;
    }

    /** The heading text box's change handler: an empty value stores the default heading. */
    method SetPromptSectionHeading(value: string)
      modifies this
      ensures settings == old(settings).(promptSectionHeading := HeadingSettingValue(value))
      ensures settings.promptSectionHeading != ""
    {
      if value == "" {
        settings := settings.(promptSectionHeading := "## Prompts");
      } else {
        settings := settings.(promptSectionHeading := value);
      }
    }

    /** `fillDailyNote` on the text of today's note: builds the body block by block, then
        rewrites the section under the configured heading. */
    method FillDailyNote(note: string, answers: seq<string>) returns (updated: string)
      ensures updated == FilledNote(note, settings, answers)
    {
      var resultString := "";
      var i := 0;
      while i < |settings.questions|
        invariant 0 <= i <= |settings.questions|
        invariant resultString == Concat(Blocks(settings, answers, i))
      {
        ghost var before := resultString;
        var question := settings.questions[i];
        QuestionLineAppended(before, settings, question);
        if settings.includeQuestions {
          if settings.questionStyle == "Bold" {
            resultString := resultString + "**" + question + "**\n";
          } else {
            resultString := resultString + question + "\n";
          }
        }
        var answer := if i < |answers| then answers[i] else "undefined";
        BlockAppended(before, settings, question, answer);
        resultString := resultString + settings.linePrefix + answer + "\n\n";
        RenderStep(settings, answers, i);
        i := i + 1;
      }
      updated := UpdateSection(note, settings.promptSectionHeading, resultString);
    }
  }
}
