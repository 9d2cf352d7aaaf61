/**
 What the controller promises across interactions: the final phase is
 terminal, phases never move backwards, exit words end the conversation,
 fields are validated before they are stored and are written only in their
 own phase, questions are generated once per skill, and the answer and
 navigation rules of the question phase.
 */
module SessionProperties {
  import opened Text
  import opened Phases
  import opened Validators
  import opened Extractor
  import opened ExitMonitor
  import opened Session

  // ---------------------------------------------------------------------
  // The shapes of one step
  // ---------------------------------------------------------------------

  predicate IsCollectPhase(p: Phase) {
    p in {CollectName, CollectEmail, CollectPhone, CollectExp, CollectPosition, CollectLocation, CollectTechStack}
  }

  /** The exit box is read after the render-time generation. */
  lemma StepOnExitInput(s: SessionState, text: string, gen: Generator)
    requires Valid(s)
    ensures Step(s, ExitInput(text), gen) == ExitStep(GenerateIfAbsent(s, gen), text)
  {
  }

  /** In a collection phase a form submission is handled by `CollectField` alone. */
  lemma StepInCollectPhase(s: SessionState, text: string, gen: Generator)
    requires Valid(s) && IsCollectPhase(s.phase)
    ensures Step(s, SubmitField(text), gen) == CollectField(s, text)
  {
  }

  /** In the question phase a step is the render-time generation followed by
      the exit box or the question-phase handlers. */
  lemma StepInQuestions(s: SessionState, e: Event, gen: Generator)
    requires Valid(s) && s.phase == AskQuestions
    ensures var t := GenerateIfAbsent(s, gen);
      && (HasCurrentSkill(t) ==> CurrentSkill(t) in t.questions)
      && Step(s, e, gen) == if e.ExitInput? then ExitStep(t, e.text) else AskQuestionsStep(t, e)
  {
  }

  /** Every other step is a button of the greeting or the summary screen, or
      is ignored. */
  lemma StepOtherwise(s: SessionState, e: Event, gen: Generator)
    requires Valid(s) && s.phase != AskQuestions && !e.ExitInput?
    requires !(e.SubmitField? && IsCollectPhase(s.phase))
    ensures Step(s, e, gen) ==
      if (s.phase == Greeting && e == StartScreening) || (s.phase == Summary && e == Finish)
      then s.(phase := Advance(s.phase)) else s
  {
  }

  /** Which of the four shapes a step has. */
  lemma StepShapes(s: SessionState, e: Event, gen: Generator)
    requires Valid(s)
    ensures e.ExitInput? ==> Step(s, e, gen) == ExitStep(GenerateIfAbsent(s, gen), e.text)
    ensures !e.ExitInput? && s.phase == AskQuestions ==>
      && (HasCurrentSkill(GenerateIfAbsent(s, gen)) ==> CurrentSkill(GenerateIfAbsent(s, gen)) in GenerateIfAbsent(s, gen).questions)
      && Step(s, e, gen) == AskQuestionsStep(GenerateIfAbsent(s, gen), e)
    ensures e.SubmitField? && IsCollectPhase(s.phase) ==> Step(s, e, gen) == CollectField(s, e.text)
    ensures !e.ExitInput? && s.phase != AskQuestions && !(e.SubmitField? && IsCollectPhase(s.phase)) ==>
      Step(s, e, gen) ==
        if (s.phase == Greeting && e == StartScreening) || (s.phase == Summary && e == Finish)
        then s.(phase := Advance(s.phase)) else s
  {
    if e.ExitInput? {
      StepOnExitInput(s, e.text, gen);
    } else if s.phase == AskQuestions {
      StepInQuestions(s, e, gen);
    } else if e.SubmitField? && IsCollectPhase(s.phase) {
      StepInCollectPhase(s, e.text, gen);
    } else {
      StepOtherwise(s, e, gen);
    }
  }

  /** The question-phase handlers touch only the cursors, the answers and,
      through "Continue to Summary", the phase. */
  lemma AskQuestionsFrame(s: SessionState, e: Event)
    requires Valid(s)
    requires HasCurrentSkill(s) ==> CurrentSkill(s) in s.questions
    ensures var r := AskQuestionsStep(s, e);
      && r.candidate == s.candidate && r.exitRequested == s.exitRequested
      && r.questions == s.questions
      && (r.phase == s.phase || (e == ContinueToSummary && r.phase == Advance(s.phase)))
  {
  }

  /** A collection form touches the candidate record and the phase, which it
      advances by at most one; only the tech-stack form resets the question
      tables and cursors. */
  lemma CollectFieldFrame(s: SessionState, text: string)
    ensures var r := CollectField(s, text);
      && r.exitRequested == s.exitRequested
      && (r.phase == s.phase || r.phase == Advance(s.phase))
      && (s.phase != CollectTechStack ==>
            && r.questions == s.questions && r.answers == s.answers
            && r.techIndex == s.techIndex && r.questionIndex == s.questionIndex)
  {
    match s.phase {
      case CollectName =>
      case CollectEmail =>
      case CollectPhone =>
      case CollectExp =>
      case CollectPosition =>
      case CollectLocation =>
      case CollectTechStack =>
      case _ =>
    }
  }

  // ---------------------------------------------------------------------
  // Phase discipline
  // ---------------------------------------------------------------------

  /** Nothing changes once the conversation has ended. */
  lemma EndIsTerminal(s: SessionState, e: Event, gen: Generator)
    requires Valid(s) && s.phase == End
    ensures Step(s, e, gen) == s
  {
  }

  /** Any sequence of interactions after the end leaves the state as it is. */
  lemma {:induction false} RunAfterEnd(s: SessionState, es: seq<Event>, gen: Generator)
    requires Valid(s) && s.phase == End
    ensures Run(s, es, gen) == s
    decreases |es|
  {
    if es != [] {
      EndIsTerminal(s, es[0], gen);
      RunAfterEnd(s, es[1..], gen);
    }
  }

  /** One interaction keeps the phase, advances it exactly one place, or
      jumps to the end because an exit word was typed. */
  lemma StepPhase(s: SessionState, e: Event, gen: Generator)
    requires Valid(s)
    ensures var r := Step(s, e, gen);
      || r.phase == s.phase
      || r.phase == Advance(s.phase)
      || (e.ExitInput? && IsExitCommand(e.text) && r.phase == End && r.exitRequested)
    ensures Index(s.phase) <= Index(Step(s, e, gen).phase)
  {
    StepShapes(s, e, gen);
    if !e.ExitInput? && s.phase == AskQuestions {
      AskQuestionsFrame(GenerateIfAbsent(s, gen), e);
    } else if e.SubmitField? && IsCollectPhase(s.phase) {
      CollectFieldFrame(s, e.text);
    }
  }

  /** Phases never move backwards over any sequence of interactions. */
  lemma {:induction false} RunPhaseMonotone(s: SessionState, es: seq<Event>, gen: Generator)
    requires Valid(s)
    ensures Index(s.phase) <= Index(Run(s, es, gen).phase)
    decreases |es|
  {
    if es != [] {
      StepPhase(s, es[0], gen);
      RunPhaseMonotone(Step(s, es[0], gen), es[1..], gen);
    }
  }

  /** The exit flag is only ever raised, never cleared. */
  lemma {:induction false} RunKeepsExitFlag(s: SessionState, es: seq<Event>, gen: Generator)
    requires Valid(s) && s.exitRequested
    ensures Run(s, es, gen).exitRequested
    decreases |es|
  {
    if es != [] {
      StepKeepsExitFlag(s, es[0], gen);
      RunKeepsExitFlag(Step(s, es[0], gen), es[1..], gen);
    }
  }

  lemma StepKeepsExitFlag(s: SessionState, e: Event, gen: Generator)
    requires Valid(s)
    ensures s.exitRequested ==> Step(s, e, gen).exitRequested
  {
    StepShapes(s, e, gen);
    if !e.ExitInput? && s.phase == AskQuestions {
      AskQuestionsFrame(GenerateIfAbsent(s, gen), e);
    } else if e.SubmitField? && IsCollectPhase(s.phase) {
      CollectFieldFrame(s, e.text);
    }
  }

  // ---------------------------------------------------------------------
  // Exit
  // ---------------------------------------------------------------------

  /** The exit box: an exit word forces the final phase and raises the flag;
      anything else changes nothing beyond the render-time generation. The
      collected data is kept as it is. */
  lemma ExitInputStep(s: SessionState, text: string, gen: Generator)
    requires Valid(s) && s.phase != End
    ensures var r := Step(s, ExitInput(text), gen);
      && r.phase == (if IsExitCommand(text) then End else s.phase)
      && r.exitRequested == (s.exitRequested || IsExitCommand(text))
      && r.candidate == s.candidate
      && r.techIndex == s.techIndex && r.questionIndex == s.questionIndex
      && (forall k :: k in s.answers ==> k in r.answers && r.answers[k] == s.answers[k])
      && (forall k :: k in s.questions ==> k in r.questions && r.questions[k] == s.questions[k])
    ensures var t := GenerateIfAbsent(s, gen);
      Step(s, ExitInput(text), gen) ==
        t.(phase := if IsExitCommand(text) then End else t.phase,
           exitRequested := t.exitRequested || IsExitCommand(text))
    ensures !IsExitCommand(text) && !NeedsGeneration(s) ==> Step(s, ExitInput(text), gen) == s
  {
  }

  /** After an exit word, every later interaction is ignored. */
  lemma ExitIsFinal(s: SessionState, text: string, es: seq<Event>, gen: Generator)
    requires Valid(s) && s.phase != End && IsExitCommand(text)
    ensures Run(s, [ExitInput(text)] + es, gen) == Step(s, ExitInput(text), gen)
    ensures Run(s, [ExitInput(text)] + es, gen).phase == End
  {
    var r := Step(s, ExitInput(text), gen);
    assert ([ExitInput(text)] + es)[1..] == es;
    RunAfterEnd(r, es, gen);
  }

  // ---------------------------------------------------------------------
  // Field collection
  // ---------------------------------------------------------------------

  /** The free-text fields (name, position, location): any non-empty input
      is stored stripped, even when that leaves an empty string, and the
      phase advances; an empty submission is ignored. */
  lemma SubmitFreeTextStep(s: SessionState, text: string, gen: Generator)
    requires Valid(s)
    requires s.phase == CollectName || s.phase == CollectPosition || s.phase == CollectLocation
    ensures var r := Step(s, SubmitField(text), gen);
      && (text == [] ==> r == s)
      && (text != [] ==> r.phase == Advance(s.phase) && r.phase != s.phase)
      && (text != [] && s.phase == CollectName ==> r == s.(candidate := s.candidate.(name := Strip(text)), phase := CollectEmail))
      && (text != [] && s.phase == CollectPosition ==> r == s.(candidate := s.candidate.(position := Strip(text)), phase := CollectLocation))
      && (text != [] && s.phase == CollectLocation ==> r == s.(candidate := s.candidate.(location := Strip(text)), phase := CollectTechStack))
  {
    StepInCollectPhase(s, text, gen);
    CollectFreeTextField(s, text);
  }

  lemma CollectFreeTextField(s: SessionState, text: string)
    requires s.phase == CollectName || s.phase == CollectPosition || s.phase == CollectLocation
    ensures var r := CollectField(s, text);
      && (text == [] ==> r == s)
      && (text != [] ==> r.phase == Advance(s.phase) && r.phase != s.phase)
      && (text != [] && s.phase == CollectName ==> r == s.(candidate := s.candidate.(name := Strip(text)), phase := CollectEmail))
      && (text != [] && s.phase == CollectPosition ==> r == s.(candidate := s.candidate.(position := Strip(text)), phase := CollectLocation))
      && (text != [] && s.phase == CollectLocation ==> r == s.(candidate := s.candidate.(location := Strip(text)), phase := CollectTechStack))
  {
  }

  /** A whitespace-only name is accepted and stored as the empty string. */
  lemma BlankNameStored(s: SessionState, text: string, gen: Generator)
    requires Valid(s) && s.phase == CollectName
    requires text != [] && AllSpace(text)
    ensures Step(s, SubmitField(text), gen).candidate.name == []
    ensures Step(s, SubmitField(text), gen).phase == CollectEmail
  {
    assert Padded(text, text, [], []);
    StripUnique(text, text, [], []);
    SubmitFreeTextStep(s, text, gen);
  }

  /** Email: accepted exactly when the input is in the language of the
      email pattern; the address is then stored verbatim and the phase
      advances by one; otherwise the state is untouched. */
  lemma SubmitEmailStep(s: SessionState, text: string, gen: Generator)
    requires Valid(s) && s.phase == CollectEmail
    ensures Step(s, SubmitField(text), gen) ==
      if MatchesEmailPattern(text)
      then s.(candidate := s.candidate.(email := text), phase := CollectPhone)
      else s
  {
    StepInCollectPhase(s, text, gen);
    CollectEmailField(s, text);
    EmailMatchesPattern(text);
  }

  lemma CollectEmailField(s: SessionState, text: string)
    requires s.phase == CollectEmail
    ensures CollectField(s, text) ==
      if IsValidEmail(text)
      then s.(candidate := s.candidate.(email := text), phase := CollectPhone)
      else s
  {
    if IsValidEmail(text) {
      ValidEmailIsStripped(text);
    }
  }

  /** Phone: accepted exactly when the input is an optional `+` and 7 to 15
      digits; stored verbatim, one phase on; otherwise untouched. */
  lemma SubmitPhoneStep(s: SessionState, text: string, gen: Generator)
    requires Valid(s) && s.phase == CollectPhone
    ensures Step(s, SubmitField(text), gen) ==
      if || (7 <= |text| <= 15 && AllDigits(text))
         || (8 <= |text| <= 16 && text[0] == '+' && AllDigits(text[1..]))
      then s.(candidate := s.candidate.(phone := text), phase := CollectExp)
      else s
  {
    StepInCollectPhase(s, text, gen);
    CollectPhoneField(s, text);
    PhoneAlternatives(text);
  }

  lemma CollectPhoneField(s: SessionState, text: string)
    requires s.phase == CollectPhone
    ensures CollectField(s, text) ==
      if IsValidPhone(text)
      then s.(candidate := s.candidate.(phone := text), phase := CollectExp)
      else s
  {
    if IsValidPhone(text) {
      ValidPhoneIsStripped(text);
    }
  }

  /** Experience: accepted exactly when the input is a non-empty digit string
      whose value is below 60; stored verbatim, one phase on; otherwise
      untouched. */
  lemma SubmitExperienceStep(s: SessionState, text: string, gen: Generator)
    requires Valid(s) && s.phase == CollectExp
    ensures Step(s, SubmitField(text), gen) ==
      if text != [] && AllDigits(text) && DecimalValue(text) < 60
      then s.(candidate := s.candidate.(exp := text), phase := CollectPosition)
      else s
  {
    StepInCollectPhase(s, text, gen);
    CollectExperienceField(s, text);
  }

  lemma CollectExperienceField(s: SessionState, text: string)
    requires s.phase == CollectExp
    ensures CollectField(s, text) ==
      if IsValidExperience(text)
      then s.(candidate := s.candidate.(exp := text), phase := CollectPosition)
      else s
  {
    if IsValidExperience(text) {
      ValidExperienceIsStripped(text);
    }
  }

  /** Tech stack: accepted exactly when some comma-separated piece is not
      blank. The stack is then the stripped non-blank pieces in order, every
      skill gets three empty answer slots, the question cache is emptied,
      both cursors return to zero and the questions phase begins. */
  lemma SubmitTechStackStep(s: SessionState, text: string, gen: Generator)
    requires Valid(s) && s.phase == CollectTechStack
    ensures var r := Step(s, SubmitField(text), gen);
      var stack := NonBlankStripped(Split(text, ','));
      && (stack == [] ==> r == s)
      && (stack != [] ==>
            && r.phase == AskQuestions
            && r.candidate == s.candidate.(techStack := stack)
            && r.questions == map[]
            && r.techIndex == 0 && r.questionIndex == 0
            && r.answers.Keys == (set t | t in stack)
            && (forall t :: t in r.answers ==> r.answers[t] == ["", "", ""])
            && r.exitRequested == s.exitRequested)
  {
    StepInCollectPhase(s, text, gen);
    CollectTechStackField(s, text);
    AcceptTechStackShape(s, ParseTechStack(text));
  }

  lemma CollectTechStackField(s: SessionState, text: string)
    requires s.phase == CollectTechStack
    ensures CollectField(s, text) == AcceptTechStack(s, ParseTechStack(text))
  {
    if text == [] {
      ParseTechStackEmpty();
      assert AcceptTechStack(s, ParseTechStack(text)) == s;
    } else {
      assert CollectField(s, text) == AcceptTechStack(s, ParseTechStack(text));
    }
  }

  lemma AcceptTechStackShape(s: SessionState, stack: seq<string>)
    requires s.phase == CollectTechStack
    ensures var r := AcceptTechStack(s, stack);
      && (stack == [] ==> r == s)
      && (stack != [] ==>
            && r.phase == AskQuestions
            && r.candidate == s.candidate.(techStack := stack)
            && r.questions == map[]
            && r.techIndex == 0 && r.questionIndex == 0
            && r.answers.Keys == (set t | t in stack)
            && (forall t :: t in r.answers ==> r.answers[t] == ["", "", ""])
            && r.exitRequested == s.exitRequested)
  {
    assert BlankAnswers() == ["", "", ""];
  }

  /** An empty submission parses to no skills. */
  lemma ParseTechStackEmpty()
    ensures ParseTechStack("") == []
  {
    SplitJoin([""], ',');
    StripOfStripped("");
    assert NonBlankStripped([""]) == [] + NonBlankStripped([]);
  }

  /** Skills are keyed by name: a stack that names a skill twice gets fewer
      answer entries than it has skills, the repeated name sharing one. */
  lemma DuplicateSkillsShareEntry(stack: seq<string>, i: nat, j: nat)
    requires i < j < |stack| && stack[i] == stack[j]
    ensures |FreshAnswers(stack).Keys| < |stack|
  {
    var rest := stack[..j] + stack[j + 1..];
    assert (set t | t in stack) == (set t | t in rest) by {
      assert stack == stack[..j] + [stack[j]] + stack[j + 1..];
      assert stack[j] == rest[i];
    }
    ElementsBound(rest);
  }

  /** A list has at most as many distinct elements as entries. */
  lemma {:induction false} ElementsBound(ss: seq<string>)
    ensures |set t | t in ss| <= |ss|
    decreases |ss|
  {
    if ss != [] {
      ElementsBound(ss[1..]);
      assert (set t | t in ss) == {ss[0]} + (set t | t in ss[1..]);
    }
  }

  /** The parsed stack is the stripped, non-blank pieces between commas. */
  lemma ParseTechStackPieces(pieces: seq<string>)
    requires |pieces| >= 1 && forall k :: 0 <= k < |pieces| ==> ',' !in pieces[k]
    ensures ParseTechStack(Join(pieces, ',')) == NonBlankStripped(pieces)
  {
    SplitJoin(pieces, ',');
  }

  /** Round trip: a list of clean skill names joined with commas parses back
      to the same list, duplicates included. */
  lemma ParseTechStackRoundTrip(stack: seq<string>)
    requires |stack| >= 1
    requires forall k :: 0 <= k < |stack| ==> stack[k] != [] && IsStripped(stack[k]) && ',' !in stack[k]
    ensures ParseTechStack(Join(stack, ',')) == stack
  {
    ParseTechStackPieces(stack);
    NonBlankStrippedKeeps(stack);
  }

  /** Candidate fields are written only in their own collection phase, so a
      field is never revisited once its phase is passed. */
  lemma FieldsWrittenOnlyInOwnPhase(s: SessionState, e: Event, gen: Generator)
    requires Valid(s)
    ensures var c, c' := s.candidate, Step(s, e, gen).candidate;
      && (c'.name == c.name || s.phase == CollectName)
      && (c'.email == c.email || s.phase == CollectEmail)
      && (c'.phone == c.phone || s.phase == CollectPhone)
      && (c'.exp == c.exp || s.phase == CollectExp)
      && (c'.position == c.position || s.phase == CollectPosition)
      && (c'.location == c.location || s.phase == CollectLocation)
      && (c'.techStack == c.techStack || s.phase == CollectTechStack)
  {
    if e.SubmitField? && IsCollectPhase(s.phase) {
      StepInCollectPhase(s, e.text, gen);
      CollectFieldWritesOwnField(s, e.text);
    } else {
      StepKeepsCandidate(s, e, gen);
    }
  }

  lemma CollectFieldWritesOwnField(s: SessionState, text: string)
    ensures var c, c' := s.candidate, CollectField(s, text).candidate;
      && (c'.name == c.name || s.phase == CollectName)
      && (c'.email == c.email || s.phase == CollectEmail)
      && (c'.phone == c.phone || s.phase == CollectPhone)
      && (c'.exp == c.exp || s.phase == CollectExp)
      && (c'.position == c.position || s.phase == CollectPosition)
      && (c'.location == c.location || s.phase == CollectLocation)
      && (c'.techStack == c.techStack || s.phase == CollectTechStack)
  {
    match s.phase {
      case CollectName =>
      case CollectEmail =>
      case CollectPhone =>
      case CollectExp =>
      case CollectPosition =>
      case CollectLocation =>
      case CollectTechStack =>
      case _ =>
    }
  }

  /** Outside the collection forms the candidate record is never written. */
  lemma StepKeepsCandidate(s: SessionState, e: Event, gen: Generator)
    requires Valid(s)
    requires !(e.SubmitField? && IsCollectPhase(s.phase))
    ensures Step(s, e, gen).candidate == s.candidate
  {
    StepShapes(s, e, gen);
    if !e.ExitInput? && s.phase == AskQuestions {
      AskQuestionsFrame(GenerateIfAbsent(s, gen), e);
    }
  }

  // ---------------------------------------------------------------------
  // Lazy question generation
  // ---------------------------------------------------------------------

  /** The generator is consulted only when the current skill has no
      questions yet: otherwise every generator gives the same result. */
  lemma GeneratorNotConsulted(s: SessionState, e: Event, g1: Generator, g2: Generator)
    requires Valid(s) && !NeedsGeneration(s)
    ensures Step(s, e, g1) == Step(s, e, g2)
  {
  }

  /** When generation happens, the skill receives the first (at most three)
      extracted questions and three empty answer slots; other skills are left
      alone. */
  lemma GenerationStoresFirstQuestions(s: SessionState, gen: Generator)
    requires Valid(s) && NeedsGeneration(s)
    ensures var r := GenerateIfAbsent(s, gen);
      var skill := CurrentSkill(s);
      var extracted := ExtractQuestions(gen(skill, s.candidate.exp));
      && r.questions[skill] <= extracted
      && |r.questions[skill]| == (if |extracted| < 3 then |extracted| else 3)
      && r.answers[skill] == ["", "", ""]
      && r.questions.Keys == s.questions.Keys + {skill}
      && (forall k :: k in s.answers && k != skill ==> k in r.answers && r.answers[k] == s.answers[k])
  {
    assert BlankAnswers() == ["", "", ""];
  }

  /** Outside the tech-stack form, stored questions are never regenerated or
      dropped. */
  lemma QuestionsNeverRegenerated(s: SessionState, e: Event, gen: Generator)
    requires Valid(s) && s.phase != CollectTechStack
    ensures var r := Step(s, e, gen);
      forall k :: k in s.questions ==> k in r.questions && r.questions[k] == s.questions[k]
  {
    StepShapes(s, e, gen);
    if !e.ExitInput? && s.phase == AskQuestions {
      AskQuestionsFrame(GenerateIfAbsent(s, gen), e);
    } else if e.SubmitField? && IsCollectPhase(s.phase) {
      CollectFieldFrame(s, e.text);
    }
  }

  // ---------------------------------------------------------------------
  // Answers and navigation in the question phase
  // ---------------------------------------------------------------------

  /** The question-phase situation in which the answer form is shown: the
      current skill has questions and the cursor is on one of them. */
  predicate OnQuestion(s: SessionState) {
    && s.phase == AskQuestions && HasCurrentSkill(s)
    && CurrentSkill(s) in s.questions
    && s.questionIndex < |s.questions[CurrentSkill(s)]|
  }

  /** Submitting an empty answer never overwrites anything. */
  lemma EmptyAnswerIgnored(s: SessionState, gen: Generator)
    requires Valid(s)
    ensures Step(s, SubmitAnswer([]), gen) == GenerateIfAbsent(s, gen)
  {
  }

  /** A non-empty answer overwrites exactly the slot under the cursor. */
  lemma AnswerWritesOneSlot(s: SessionState, text: string, gen: Generator)
    requires Valid(s) && OnQuestion(GenerateIfAbsent(s, gen)) && text != []
    ensures OnQuestion(s) ==> GenerateIfAbsent(s, gen) == s
    ensures var t, r := GenerateIfAbsent(s, gen), Step(s, SubmitAnswer(text), gen);
      var skill, q := CurrentSkill(t), t.questionIndex;
      && r.answers.Keys == t.answers.Keys
      && r.answers[skill][q] == text
      && (forall i :: 0 <= i < QuestionsPerSkill && i != q ==> r.answers[skill][i] == t.answers[skill][i])
      && (forall k :: k in t.answers && k != skill ==> r.answers[k] == t.answers[k])
      && r.phase == t.phase && r.techIndex == t.techIndex && r.questionIndex == q
      && r.candidate == t.candidate && r.questions == t.questions && r.exitRequested == t.exitRequested
  {
    StepInQuestions(s, SubmitAnswer(text), gen);
  }

  /** In the question phase a given answer is never lost: a non-empty slot
      stays non-empty whatever happens next. */
  lemma AnswersNeverCleared(s: SessionState, e: Event, gen: Generator, k: string, i: nat)
    requires Valid(s) && s.phase == AskQuestions
    requires k in s.answers && i < |s.answers[k]| && s.answers[k][i] != []
    ensures var r := Step(s, e, gen);
      k in r.answers && i < |r.answers[k]| && r.answers[k][i] != []
  {
    StepInQuestions(s, e, gen);
    var t := GenerateIfAbsent(s, gen);
    if !e.ExitInput? {
      AnswerSlotsOnlyGrow(t, e);
    }
  }

  /** The question-phase handlers change an answer list only by writing a
      non-empty submitted text into the slot under the cursor. */
  lemma AnswerSlotsOnlyGrow(s: SessionState, e: Event)
    requires Valid(s)
    requires HasCurrentSkill(s) ==> CurrentSkill(s) in s.questions
    ensures var r := AskQuestionsStep(s, e);
      && r.answers.Keys == s.answers.Keys
      && forall k :: k in s.answers ==>
           || r.answers[k] == s.answers[k]
           || (&& e.SubmitAnswer? && e.text != [] && HasCurrentSkill(s) && k == CurrentSkill(s)
               && s.questionIndex < |s.answers[k]|
               && r.answers[k] == s.answers[k][s.questionIndex := e.text])
  {
  }

  /** "Next Question" moves the cursor forward by one exactly when the current
      question is answered and is not the skill's last; otherwise nothing
      changes beyond the render-time generation. The gate is read on the
      state after generation, so it also covers the first click on a skill
      whose questions are generated in the same run; before any click the
      generation is a no-op. */
  lemma NextQuestionGate(s: SessionState, gen: Generator)
    requires Valid(s) && OnQuestion(GenerateIfAbsent(s, gen))
    ensures OnQuestion(s) ==> GenerateIfAbsent(s, gen) == s
    ensures var t, r := GenerateIfAbsent(s, gen), Step(s, NextQuestion, gen);
      var skill, q := CurrentSkill(t), t.questionIndex;
      var gate := t.answers[skill][q] != [] && q + 1 < |t.questions[skill]|;
      && (gate ==> r == t.(questionIndex := q + 1))
      && (!gate ==> r == t)
  {
    StepInQuestions(s, NextQuestion, gen);
  }

  /** "Next Technology" moves to the next skill and its first question when
      the skill is finished: either its last question is answered or the
      cursor is past its questions. Otherwise nothing changes beyond the
      render-time generation, which is a no-op once the skill has questions. */
  lemma NextTechnologyGate(s: SessionState, gen: Generator)
    requires Valid(s) && s.phase == AskQuestions && HasCurrentSkill(s)
    ensures CurrentSkill(s) in s.questions ==> GenerateIfAbsent(s, gen) == s
    ensures var t, r := GenerateIfAbsent(s, gen), Step(s, NextTechnology, gen);
      var skill, q := CurrentSkill(t), t.questionIndex;
      var qs := t.questions[skill];
      var done := q >= |qs| || (t.answers[skill][q] != [] && q + 1 >= |qs|);
      && (done ==> r == t.(techIndex := t.techIndex + 1, questionIndex := 0))
      && (!done ==> r == t)
  {
    StepInQuestions(s, NextTechnology, gen);
  }

  /** In the question phase the cursor only moves forward: the skill index
      grows by at most one and then the question index restarts at zero;
      otherwise the question index grows by at most one. */
  lemma CursorMovesForward(s: SessionState, e: Event, gen: Generator)
    requires Valid(s) && s.phase == AskQuestions
    ensures var r := Step(s, e, gen);
      || (r.techIndex == s.techIndex && s.questionIndex <= r.questionIndex <= s.questionIndex + 1)
      || (r.techIndex == s.techIndex + 1 && r.questionIndex == 0)
  {
    StepInQuestions(s, e, gen);
    var t := GenerateIfAbsent(s, gen);
    if !e.ExitInput? {
      AskQuestionsCursor(t, e);
    }
  }

  lemma AskQuestionsCursor(s: SessionState, e: Event)
    requires Valid(s)
    requires HasCurrentSkill(s) ==> CurrentSkill(s) in s.questions
    ensures var r := AskQuestionsStep(s, e);
      || (r.techIndex == s.techIndex && s.questionIndex <= r.questionIndex <= s.questionIndex + 1)
      || (r.techIndex == s.techIndex + 1 && r.questionIndex == 0)
  {
  }

  /** Once the tech-stack form is behind, the skill index never decreases:
      only that form resets it. */
  lemma {:induction false} RunTechIndexMonotone(s: SessionState, es: seq<Event>, gen: Generator)
    requires Valid(s) && Index(CollectTechStack) < Index(s.phase)
    ensures s.techIndex <= Run(s, es, gen).techIndex
    decreases |es|
  {
    if es != [] {
      StepTechIndexMonotone(s, es[0], gen);
      StepPhase(s, es[0], gen);
      RunTechIndexMonotone(Step(s, es[0], gen), es[1..], gen);
    }
  }

  lemma StepTechIndexMonotone(s: SessionState, e: Event, gen: Generator)
    requires Valid(s) && Index(CollectTechStack) < Index(s.phase)
    ensures s.techIndex <= Step(s, e, gen).techIndex
  {
    assert !IsCollectPhase(s.phase);
    StepShapes(s, e, gen);
    if !e.ExitInput? && s.phase == AskQuestions {
      AskQuestionsCursor(GenerateIfAbsent(s, gen), e);
    }
  }

  /** Once every skill is done only "Continue to Summary" advances, and it
      leads to the summary; everything else except an exit word is ignored. */
  lemma AllSkillsDone(s: SessionState, e: Event, gen: Generator)
    requires Valid(s) && s.phase == AskQuestions && !HasCurrentSkill(s)
    ensures var r := Step(s, e, gen);
      && (e == ContinueToSummary ==> r == s.(phase := Summary))
      && (e != ContinueToSummary && !e.ExitInput? ==> r == s)
  {
  }

  /** The summary is reached from the question phase only through "Continue
      to Summary" with every skill done. */
  lemma SummaryOnlyAfterAllSkills(s: SessionState, e: Event, gen: Generator)
    requires Valid(s) && s.phase == AskQuestions
    requires Step(s, e, gen).phase == Summary
    ensures e == ContinueToSummary && !HasCurrentSkill(s)
  {
    StepInQuestions(s, e, gen);
    var t := GenerateIfAbsent(s, gen);
    assert HasCurrentSkill(t) == HasCurrentSkill(s);
    if !e.ExitInput? {
      AskQuestionsFrame(t, e);
    }
  }
}
