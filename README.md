# Daily Prompt: section rewriting and answer rendering, in Dafny

Daily Prompt is an Obsidian plugin. It asks the user a configured list of questions, renders
the answers as one block of Markdown, and writes that block into today's daily note, under a
configured heading such as `## Prompts`. This project models the two pieces of logic behind
that, and proves what they do.

- `updateSection` (src/fileUtils.ts) rewrites a note. Module `FileUtils`, with the string
  helpers in `Text`, models it:
  - The note is split on `"\n"`.
  - A single pass looks for the last line that trims to the target heading before the first
    later heading of the same or a shallower level.
  - The lines in between are replaced by the new contents, and the result is joined with
    `"\n"`.
  - When no line matches, a blank line, the heading and the contents are appended.
  - `getHeadingLevel` and its regular expression `^(#{1,6})\s+\S` are modelled as
    `HeadingLevel`.
- `fillDailyNote` (src/main.ts) builds the section body. Module `DailyPrompt` models it:
  - A loop builds the body question by question: the question (bold, plain or left out),
    then the line prefix and the answer, then a blank line.
  - The body is handed to `updateSection` with the configured heading.
  - The settings record, its defaults and the heading setting's fallback to `## Prompts` are
    part of the model.

The scan loop and the render loop are methods with loop invariants (`FileUtils.Scan`,
`DailyPrompt.Plugin.FillDailyNote`). Each is proved equal to a function (`Locate`,
`RenderedBody`), and the properties are lemmas about those functions. `Locate` is a
recursive mirror of the loop. A separate predicate, `IsSectionScan`, says what the pair of
line numbers means, and `LocateCharacterized` proves that `Locate` gives exactly the pairs
satisfying it.

Behaviour of the code worth knowing. The settings text at src/main.ts:136 asks for a heading
that is unique in each daily note; the code does not rely on that, and does the following:

- The heading is not necessarily found at its first occurrence. Each matching line replaces
  the previous candidate until a boundary heading stops the scan, so the section taken is the
  last match before the first boundary (`FirstOccurrenceNotChosen`). The first occurrence is
  taken only when it is the last one, or when a boundary follows it before the next one.
- The file line is trimmed but the configured heading is not. A heading typed with a leading
  or trailing space is never found, and every fill appends another copy of the section
  (`UntrimmedHeadingAlwaysAppends`).
- Rewriting twice with the same contents is rewriting once when the heading is its own trim
  and one line and no line of the contents trims to the heading or is a boundary heading
  (`UpdateIdempotent`). Without that condition it can fail: a line of the contents that
  repeats the heading becomes a later match at src/fileUtils.ts:25-26, so the next rewrite
  keeps it and adds the contents after it, one more heading line each time.
- When no boundary follows the section, everything after the heading line is replaced.
  Later sections of a deeper level are part of the section.
- A target that `^(#{1,6})\s+\S` does not match has no level, so no line is a boundary and
  its section runs to the end of the note (`NonHeadingTargetRunsToEnd`).
- Rewriting a section and writing its old lines back restores the note byte for byte only
  when the old section is not empty and the new contents neither repeat the heading nor
  contain a boundary heading (`UpdateRoundTrip`). An empty old section becomes one empty
  line.
- No newline is added after the contents on this path, and `"".split("\n")` is `[""]`, so an
  empty note gets `"\n\n" + heading + "\n" + contents` for a non-empty heading
  (`UpdateEmptyFile`). For the empty heading, the note's one empty line trims to the heading
  and is taken as the heading line, so the empty note becomes `"\n" + contents`
  (`UpdateEmptyFileEmptyHeading`).
- An answer missing for a question is rendered as the text `undefined`, as JavaScript
  concatenation does (`AnswerAt`, `MissingAnswersRenderUndefined`). No precondition rules that
  case out.

## Model

| member | source | states |
|---|---|---|
| `FileUtils.HeadingLevel` | src/fileUtils.ts:4-7 | a level, when there is one, is 1 to 6, shorter than the line, and followed by a white-space character |
| `FileUtils.HeadingLevelMatchesPattern` | src/fileUtils.ts:5-6 | the level is `k` exactly when the line matches `^(#{1,6})\s+\S` with a group of `k` '#' characters |
| `FileUtils.HeadingLevelNeedsContent` | src/fileUtils.ts:5 | a run of '#' followed only by white space is not a heading |
| `Text.SplitHasNoNewlines` | src/fileUtils.ts:19 | no piece of `split("\n")` contains a line feed |
| `Text.JoinSplit` | src/fileUtils.ts:19 | joining the split lines with `"\n"` gives back the text |
| `Text.SplitJoin` | src/fileUtils.ts:59 | splitting a non-empty join of lines without line feeds gives back the lines |
| `Text.SplitAtNewline` | src/fileUtils.ts:19 | splitting `a + "\n" + b` gives the lines of `a` followed by the lines of `b` |
| `Text.SplitJoinAround` | src/fileUtils.ts:59 | joined lines around one block come back from a split unchanged, with the block split into its own lines |
| `Text.TrimIsInnerPiece` | src/fileUtils.ts:25 | `trim` returns the piece of the line between white-space-only ends, itself starting and ending with a non-space character |
| `Text.TrimIdempotent` | src/fileUtils.ts:25 | trimming a trimmed line changes nothing |
| `FileUtils.LocateFromSound` | src/fileUtils.ts:24-34 | the scan from any point consistent with the loop invariant ends in a pair satisfying `IsScanResult` |
| `FileUtils.ScanResultUnique` | src/fileUtils.ts:24-34 | at most one pair of line numbers satisfies the scan's specification |
| `FileUtils.LocateCharacterized` | src/fileUtils.ts:21-34 | a pair is the scan's result exactly when the heading line is the last matching line before the first later non-matching boundary heading (none: -1), and that boundary is at the target's level or shallower (none: -1) |
| `FileUtils.Scan` | src/fileUtils.ts:21-34 | the loop, with its break, ends with the pair `Locate` gives |
| `FileUtils.HeadingAbsentIff` | src/fileUtils.ts:25-26 | the heading line stays -1 exactly when no line trims to the heading |
| `FileUtils.NonHeadingTargetRunsToEnd` | src/fileUtils.ts:28-29 | when the target is not a heading, no boundary is ever found |
| `FileUtils.FirstOccurrenceNotChosen` | src/fileUtils.ts:24-27 | when the first two matching lines have no boundary between them, the section found starts at the second or later |
| `FileUtils.UntrimmedHeadingAlwaysAppends` | src/fileUtils.ts:25 | a heading with white space at either end is never found, and the rewrite appends another copy of the section |
| `FileUtils.UpdateSection` | src/fileUtils.ts:53-63 | the rewritten text is the one `UpdatedContents` specifies for the file, heading and contents |
| `FileUtils.SectionEnd` | src/fileUtils.ts:55-56 | the section ends after the heading line and no later than the end of the note |
| `FileUtils.UpdateAppendsWhenAbsent` | src/fileUtils.ts:61-63 | without a matching line, the old text is kept and followed by a blank line, the heading as given and the contents |
| `FileUtils.UpdateEmptyFile` | src/fileUtils.ts:61-63 | an empty note becomes `"\n\n" + heading + "\n" + contents`, for a non-empty heading |
| `FileUtils.UpdateEmptyFileEmptyHeading` | src/fileUtils.ts:19-34 | under the empty heading, the empty note's one line is the heading line and the note becomes `"\n" + contents` |
| `FileUtils.UpdateReplacesSection` | src/fileUtils.ts:53-60 | with a matching line, the new lines are the old lines through the heading line, the lines of the contents, then the old lines from the boundary on (none without a boundary) |
| `FileUtils.UpdateKeepsSurroundingText` | src/fileUtils.ts:53-60 | the text through the heading line is a prefix of the old note and of the new one, and the text from the boundary line on is kept byte for byte after the contents |
| `FileUtils.RescanAfterReplace` | src/fileUtils.ts:21-34 | after a rewrite with contents that stay in the section, a new scan finds the same heading line and the boundary moved along |
| `FileUtils.UpdateTwice` | src/fileUtils.ts:53-63 | for a heading that is its own trim and one line, and first contents none of whose lines trims to the heading or is a boundary heading, rewriting a rewritten note gives what a single rewrite with the latest contents gives |
| `FileUtils.UpdateIdempotent` | src/fileUtils.ts:53-63 | for a heading that is its own trim and one line, and contents none of whose lines trims to the heading or is a boundary heading, rewriting twice with the same contents is rewriting once |
| `FileUtils.UpdateWithOwnSection` | src/fileUtils.ts:53-60 | writing back the lines a non-empty section holds leaves the note unchanged |
| `FileUtils.UpdateRoundTrip` | src/fileUtils.ts:53-60 | when the heading is found, the old section is not empty, and no line of the new contents trims to the heading or is a boundary heading, rewriting the section and then writing its old lines back restores the note |
| `DailyPrompt.DefaultHeadingIsSectionHeading` | src/main.ts:26-33 | the default heading `## Prompts` is a level-2 heading, its own trim and one line |
| `DailyPrompt.Plugin.constructor` | src/main.ts:45-49 | with nothing saved, the settings are the defaults |
| `DailyPrompt.HeadingSettingValue` | src/main.ts:143-147 | the stored heading is never empty |
| `DailyPrompt.EmptiedHeadingIsDefault` | src/main.ts:143-147 | a non-empty value is stored as typed; the empty value stores `## Prompts`, a level-2 heading |
| `DailyPrompt.Plugin.SetPromptSectionHeading` | src/main.ts:142-147 | the handler changes only the heading setting, to the value the box stores |
| `DailyPrompt.MissingAnswersRenderUndefined` | src/main.ts:94-103 | with fewer answers than questions, the body is the one rendered with the text `undefined` typed for every missing answer |
| `DailyPrompt.Plugin.FillDailyNote` | src/main.ts:93-110 | the loop builds `RenderedBody` of the settings and answers, and the note becomes the rewrite of that body under the configured heading |
| `DailyPrompt.RenderStep` | src/main.ts:94-103 | one more iteration appends exactly the next question's block |
| `DailyPrompt.RenderedBodyIsBlocksInOrder` | src/main.ts:93-104 | the body is the first question's block followed by the body of the remaining questions: one block per question, in order |
| `DailyPrompt.RenderedBodyOfNoQuestions` | src/main.ts:93-94 | no questions give the empty body |
| `DailyPrompt.BlockShapes` | src/main.ts:96-103 | a block is `**q**\n` + prefix + answer + `\n\n` in bold style, `q\n` + prefix + answer + `\n\n` in any other style, and prefix + answer + `\n\n` without questions |
| `DailyPrompt.ExtraAnswersIgnored` | src/main.ts:94-103 | answers past the last question do not change the body |
| `DailyPrompt.QuestionTextUnusedWhenExcluded` | src/main.ts:96-103 | without questions in the note, the question texts do not affect the body |
| `DailyPrompt.DefaultRendering` | src/main.ts:93-104 | with the default settings, one answer renders as `**Example prompt**\n` + answer + `\n\n` |
| `DailyPrompt.FillAgainReplaces` | src/main.ts:105-110 | answering again replaces the previous answers, when the body stays in the section and the heading is its own trim and one line |
| `DailyPrompt.FillAgainReplacesUnderDefaultHeading` | src/main.ts:105-110 | under the default heading, answering again replaces the previous answers whenever the body stays in the section |
| `DailyPrompt.FillAppendsToNoteWithoutHeading` | src/main.ts:105-110 | in a note without the heading, the body is appended under the heading |

## Left out

- The editor path of `updateSection` (src/fileUtils.ts:36-51) is not part of this model. It
  is not equivalent to the file-text path:
  - When a boundary exists, it ends the replaced range at the line before the boundary.
  - It adds a line feed after the contents.
  - When the heading is absent, it inserts the contents without the heading.
  - `getEditorForFile` (src/fileEditor.ts) is not available.
- Reading and writing the note (`vault.read`, `vault.modify`), `async`/`await`, and the
  Obsidian `App` and `TFile` objects. The note's text is a parameter and the new text a
  result.
- Finding or creating today's daily note, and the `moment` date (src/main.ts:85-91). These
  are calls into the daily-notes library.
- The prompt dialog and everything in src/modal.ts: DOM construction, events, and collecting
  the answers. The answers are a parameter of `FillDailyNote`.
- Plugin lifecycle and persistence:
  - The merge of saved data over the defaults in `onload`. The constructor models the case
    where nothing was saved.
  - `saveData`, `onunload`, the command registration with its `setTimeout`, and console
    logging.
- The other settings handlers. Line prefix, include questions and question style are field
  assignments. Adding, editing and removing prompts update the questions array in place
  (`push`, element assignment, `splice`, src/main.ts:196, 209, 238). With nothing saved,
  `Object.assign` at src/main.ts:45-49 copies only the top level, so that array is the one in
  `DEFAULT_SETTINGS`; this sharing is not modelled either.
  `dailyNotesFolder` is carried in the record but not read by the modelled code.
- Text is a sequence of characters. JavaScript's UTF-16 code units and surrogate pairs are not
  modelled. White space for both `\s` and `trim` is the same explicit set of characters
  (`Text.IsSpace`).
