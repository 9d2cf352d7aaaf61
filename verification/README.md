# TalentScout conversation controller

TalentScout is a hiring-assistant web page. It greets a candidate, collects
their contact details one form at a time, asks a few generated technical
questions per declared skill, shows a summary, and lets the candidate leave at
any point by typing an exit word. This project models the page's conversation
controller as a pure transition system and proves what it promises.

Each module follows one part of the controller:

- `Text` (text.dfy): the string operations the controller relies on, with
  Python's meaning and the laws used later.
  - `str.strip()` uses the full `str.isspace()` set.
  - `lower()` and `isdigit()` are restricted to ASCII.
  - `split` takes a one-character separator, and `Join` is its inverse.
- `Validators` (validators.dfy): the email and phone regular expressions and
  the years-of-experience test. Each executable check is paired with a
  declarative statement of the language it decides.
- `Extractor` (extractor.dfy): `extract_questions`, which reads numbered
  lines out of the generator's reply and falls back to the non-blank lines.
- `Phases` (phases.dfy): the eleven phases, their order, and the clamped
  `move_to_next_phase`.
- `ExitMonitor` (exit_monitor.dfy): `check_for_exit`.
- `Session` (session.dfy): the session state as an immutable record, the
  user actions as an `Event` datatype, and the transitions.
  - `Init` models `init_session_state`.
  - `Step` models one run of the page script with one user action. It first
    runs the render-time lazy question generation (`GenerateIfAbsent`), then
    the phase's handler, and reads the exit box last.
  - `Run` folds `Step` over a list of actions.
- `SessionProperties` (session_properties.dfy): the properties of `Step` and
  `Run` that hold across interactions.

The question generator is a parameter `gen: (skill, years) -> reply`. It
stands for the backend call applied to the question prompt, including the
fixed apology text the call returns on failure. Nothing about its replies is
assumed.

`Step` requires `Valid(s)`. `Valid` is the shape of the question and answer
tables:
- every answer list has three slots;
- every skill with questions has an answer list and at most three questions;
- a skill without questions still has blank answers.

The page indexes these tables without checks. `Init` establishes `Valid`,
and `Step` preserves it, so every reachable state satisfies it.

## Model

| member | source | states |
|---|---|---|
| Phases.Index | app.py:86-91 | the position of a phase is the entry of the order table that holds it |
| Phases.OrderIsBijective | app.py:86-90 | the order table lists each of the eleven phases exactly once, and `Index` inverts it |
| Phases.Advance | app.py:85-92 | advancing moves phase number i to number min(i + 1, 10) of the fixed order |
| Phases.AdvanceEnd | app.py:92 | advancing out of the final phase stays in the final phase |
| Phases.AdvanceNIndex | app.py:85-92 | k advances from phase i reach phase min(i + k, 10) |
| Phases.TenAdvancesVisitAll | app.py:85-92 | ten advances from the greeting visit every phase exactly once, in order, and reach the end |
| Phases.AdvanceMonotone | app.py:91-92 | advancing never goes backwards, and leaves the phase unchanged only at the end |
| ExitMonitor.ExitCharacterization | app.py:99-103 | an input is an exit command iff it is one of the five exit words in some ASCII case, padded with whitespace |
| ExitMonitor.ExitIgnoresPadding | app.py:100 | whitespace added around any input never changes the exit verdict |
| ExitMonitor.ExitIgnoresCase | app.py:100 | upper or lower case never changes the exit verdict |
| ExitMonitor.ExitExamples | app.py:99-103 | "  EXIT  ", "Bye" and "STOP" end the conversation; "exiting" and the empty input do not |
| Validators.EmailMatchesPattern | app.py:10-11 | the scanning email check accepts exactly the language of `[\w.-]+@[\w.-]+\.\w+` |
| Validators.ValidEmailIsStripped | app.py:147-148 | an accepted address has no surrounding whitespace, so the stored `strip()` of it is the input itself |
| Validators.PhoneAlternatives | app.py:13-14 | a phone number is accepted iff it is 7 to 15 digits, or a `+` followed by 7 to 15 digits |
| Validators.PhonePlusPrefix | app.py:14 | putting one `+` in front of a text that does not start with `+` never changes its verdict, and a doubled `+` is always rejected |
| Validators.ValidPhoneIsStripped | app.py:162-163 | an accepted phone number is stored as typed |
| Validators.Decimal | app.py:177 | every natural number has a canonical digit rendering whose value is that number |
| Validators.ExperienceBound | app.py:177 | the rendering of n passes the experience test iff n < 60 |
| Validators.LeadingZero | app.py:177 | a leading zero keeps the value, so zero-padded numbers below 60 also pass |
| Validators.ExperienceRejectsNonDigits | app.py:177 | any non-digit character, such as a sign, a blank or a decimal point, makes the input fail |
| Validators.ValidExperienceIsStripped | app.py:177-178 | an accepted experience value is stored as typed |
| Text.Strip | app.py:135 | `strip()` returns a string with no whitespace at either end that is no longer than its input |
| Text.StripPadded | app.py:135 | the input of `strip()` is its result with all-whitespace text before and after it |
| Text.StripUnique | app.py:135 | a stripped core surrounded by whitespace strips to exactly that core, which pins `Strip` down |
| Text.StripIgnoresPadding | app.py:100 | whitespace added around any text leaves its `strip()` unchanged |
| Text.StripLower | app.py:100 | stripping and lower-casing commute |
| Text.Split | app.py:216 | `split` returns at least one piece, no piece contains the separator, and joining the pieces gives back the input |
| Text.SplitJoin | app.py:62 | splitting a join of separator-free pieces gives back the pieces |
| Text.NonBlankStripped | app.py:62 | the blank-filtering comprehension keeps only non-empty stripped strings, never more than it was given |
| Text.NonBlankStrippedKeeps | app.py:216 | the filter leaves a list of non-empty stripped strings unchanged |
| Extractor.Numbered | app.py:58-60 | the numbered-line matches are stripped, at most one per line |
| Extractor.NumberedEmpty | app.py:58-59 | no match is found exactly when no line starts with digits followed by `.` or `)` |
| Extractor.NumberedAppend | app.py:58 | matching is per line: the matches of concatenated line lists are concatenated, in order and with duplicates kept |
| Extractor.ExtractQuestions | app.py:56-62 | extraction never fails; it returns at most one stripped, single-line question per line |
| Extractor.ExtractPrefersNumbered | app.py:58-60 | when some line is numbered, the result is exactly the numbered lines' text |
| Extractor.ExtractFallsBack | app.py:61-62 | when no line is numbered, the result is every non-blank line, stripped, and none is empty |
| Extractor.ExtractEmpty | app.py:56-62 | the empty reply yields no questions |
| Extractor.ExtractNumberedExample | app.py:58-60 | "1. Why?\n2) How?\n3. What?" yields the three questions in order, with either punctuation |
| Extractor.ExtractFallbackExample | app.py:61-62 | a reply without numbered lines yields its lines |
| Session.Init | app.py:64-81 | the initial state is at the greeting with every candidate field empty, no skills, empty question and answer tables, both cursors at zero and no exit requested |
| Session.FreshAnswers | app.py:222 | the answer table has one entry per distinct skill name |
| Session.FirstQuestions | app.py:242-243 | the stored questions are the first min(n, 3) extracted ones |
| Session.GenerateIfAbsent | app.py:235-246 | generation adds at most the current skill to either table; every stored question list and answer list, the record, the phase and the cursors are kept, and nothing changes when the skill already has questions |
| Session.ParseTechStack | app.py:216 | every parsed skill is non-empty, stripped and free of commas |
| Session.AskQuestionsStep | app.py:229-282 | the question-phase handlers keep the tables valid |
| Session.Step | app.py:120-308 | one interaction keeps the tables valid |
| Session.Run | app.py:120-308 | any sequence of interactions keeps the tables valid |
| SessionProperties.AskQuestionsFrame | app.py:249-282 | after generation, the answer form and the navigation buttons never write the candidate record, the exit flag or the question cache, and change the phase only through "Continue to Summary" |
| SessionProperties.CollectFieldFrame | app.py:128-226 | a form advances the phase by at most one; only the tech-stack form touches the question tables and cursors |
| SessionProperties.EndIsTerminal | app.py:303-308 | in the final phase nothing changes, including the exit box, which is not shown there |
| SessionProperties.RunAfterEnd | app.py:303-308 | after the end, any sequence of interactions leaves the state unchanged |
| SessionProperties.StepPhase | app.py:85-92 | one interaction keeps the phase, advances it one place, or jumps to the end on an exit word; phases never go back |
| SessionProperties.RunPhaseMonotone | app.py:85-92 | the phase never moves backwards over any sequence of interactions |
| SessionProperties.RunKeepsExitFlag | app.py:94-96 | once raised, the exit flag stays raised |
| SessionProperties.ExitInputStep | app.py:94-111 | an exit word forces the end and raises the flag; any other text changes nothing beyond the render-time generation; apart from the phase and the flag, the step leaves the state as generation left it, so the record, the cursors and every stored question and answer list are kept |
| SessionProperties.ExitIsFinal | app.py:94-111 | after an exit word every later interaction is ignored |
| SessionProperties.SubmitFreeTextStep | app.py:128-206 | name, position and location: a non-empty input is stored stripped and the phase advances; an empty one is ignored |
| SessionProperties.BlankNameStored | app.py:134-135 | a whitespace-only name is accepted and stored as the empty string |
| SessionProperties.SubmitEmailStep | app.py:140-152 | the email is stored verbatim with one phase advance iff it is in the email language; otherwise nothing changes |
| SessionProperties.SubmitPhoneStep | app.py:155-167 | the phone is stored verbatim with one phase advance iff it is an optional `+` and 7 to 15 digits; otherwise nothing changes |
| SessionProperties.SubmitExperienceStep | app.py:170-182 | experience is stored verbatim with one phase advance iff it is a non-empty digit string worth less than 60; otherwise nothing changes |
| SessionProperties.SubmitTechStackStep | app.py:209-226 | a stack with a non-blank piece replaces the skills, empties the cache, resets both cursors, gives every skill three empty answers and starts the questions; otherwise nothing changes |
| SessionProperties.DuplicateSkillsShareEntry | app.py:222 | a stack naming a skill twice gets fewer answer entries than skills |
| SessionProperties.ParseTechStackPieces | app.py:216 | the parsed stack is the stripped, non-blank text between the commas |
| SessionProperties.ParseTechStackRoundTrip | app.py:216 | clean skill names joined by commas parse back to the same list, duplicates included |
| SessionProperties.FieldsWrittenOnlyInOwnPhase | app.py:128-226 | each candidate field is written only in its own collection phase |
| SessionProperties.StepKeepsCandidate | app.py:121-308 | the greeting and summary buttons, the answer form, the navigation buttons and the exit box never write the candidate record; only the collection forms do |
| SessionProperties.GeneratorNotConsulted | app.py:238 | the generator is consulted only when the current skill has no questions: otherwise every generator gives the same step |
| SessionProperties.GenerationStoresFirstQuestions | app.py:238-244 | generation stores at most three extracted questions in order, gives three empty answers, and adds only the current skill |
| SessionProperties.QuestionsNeverRegenerated | app.py:238 | outside the tech-stack form, stored questions are never replaced or dropped |
| SessionProperties.EmptyAnswerIgnored | app.py:257 | an empty answer never overwrites a slot |
| SessionProperties.AnswerWritesOneSlot | app.py:257-258 | a non-empty answer overwrites exactly the slot under the cursor of the state after generation; the other slots and answer lists, the question table, the record, the phase, the cursors and the exit flag are kept |
| SessionProperties.AnswersNeverCleared | app.py:249-282 | in the question phase a non-empty answer slot stays non-empty |
| SessionProperties.AnswerSlotsOnlyGrow | app.py:254-258 | the question handlers change an answer list only by writing a non-empty text into the slot under the cursor |
| SessionProperties.NextQuestionGate | app.py:262-266 | "Next Question" moves the cursor one question on iff the current one is answered and is not the last, read on the state after generation, so the first click on a freshly generated skill is covered; otherwise nothing but generation changes |
| SessionProperties.NextTechnologyGate | app.py:267-277 | "Next Technology" moves to the next skill's first question iff the last question is answered or there are no questions left, read on the state after generation; otherwise nothing but generation changes |
| SessionProperties.CursorMovesForward | app.py:261-277 | the cursor moves forward only: one question on, or one skill on with the question index reset to zero |
| SessionProperties.RunTechIndexMonotone | app.py:261-277 | once past the tech-stack form, the skill index never decreases over any sequence of interactions |
| SessionProperties.AllSkillsDone | app.py:278-282 | with every skill done, only "Continue to Summary" advances, and it reaches the summary |
| SessionProperties.SummaryOnlyAfterAllSkills | app.py:278-282 | the summary is reached from the questions only through "Continue to Summary" with every skill done |

## Left out

- Rendering is not modelled: page chrome, messages, the spinner, forms and
  widgets (app.py:105-116 and the display calls throughout). Each user action
  is an `Event` instead. `st.rerun()` and `st.stop()` are not modelled either:
  they end a run, and a `Step` is one run.
- Generation on `st.rerun()` happens one step later in the model. The page
  generates a skill's questions in the run that `st.rerun()` starts. The model
  does it at the start of the next `Step`, before that step's action. The
  candidate cannot act in between, so what they see is the same.
- The backend call `get_llama_response` (app.py:16-24) is foreign I/O. It
  appears only inside the generator parameter, together with its failure text.
- The prompt templates and the summary text are not modelled, because they
  are formatting only: `generate_info_gathering_prompt`,
  `generate_tech_questions_prompt`, `summarize_candidate_data` and the context
  line (app.py:26-54, app.py:118).
- The summary's `'N/A'` defaults are not modelled. They can never appear,
  because `init_session_state` fills every field.
- The per-form backend calls (app.py:129, 141, 156, 171, 186, 198, 210) only
  display text and change no state.
- The start time (app.py:81) is wall-clock time and is never read.
- Phases are an enumeration rather than strings, so an unknown phase name,
  which the page never produces, cannot occur.
- Session.Step: requires `Valid`. `Init` establishes it and `Step` preserves
  it, so every reachable state satisfies it. Only some states outside it make
  the page fail, for example a generated skill without an answer entry, on
  which app.py:247 raises a lookup error. Others, such as an answer list with
  four slots, the page would run on, and the model does not describe them.
- Validators.IsWordChar: `\w`, `\d`, `isdigit()` and `lower()` are read with
  ASCII semantics, so non-ASCII letters and digits are rejected or left
  unchanged. Python's `isdigit()` also accepts characters such as superscript
  digits that `int()` then refuses. That crash is not modelled.
- Validators.IsValidEmail: `$` in `re.match` also matches before one trailing
  newline, so Python accepts an address or phone number followed by `"\n"`.
  The model rejects it. A single-line text input cannot produce that input.
- Extractor.Numbered: matching is per line. In the page's multi-line pattern,
  `\s*` can also run across a newline after a bare number line such as
  `"1."`, and then capture the next line. The model does not follow this.
- Text.NonBlankStripped: the law that the filter distributes over
  concatenation is not stated. It is not needed by any other property.

The question prompt asks for exactly `TECH_Q_PER_SKILL` questions
(app.py:36), but the code stores the first three extracted questions, or fewer when fewer are
extracted (app.py:243), and the answer and navigation logic uses the stored
count (app.py:249, app.py:263). The model follows the code.
