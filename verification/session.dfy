/**
 The conversation controller as a pure transition system: the session state
 the page keeps between interactions, the user actions as events, and
 `Step`, which applies one event the way one run of the page script does.

 A run of the script first executes the block of the current phase; in the
 ask-questions phase that block generates the current skill's questions if
 they are missing, before it looks at any button. The exit box is handled
 after the phase block. `Step` follows that order: `GenerateIfAbsent`, then
 the event.
 */
module Session {
  import opened Text
  import opened Phases
  import opened Validators
  import opened Extractor
  import opened ExitMonitor

  /** `TECH_Q_PER_SKILL`. */
  const QuestionsPerSkill: nat := 3

  /** The question generator as the controller consumes it: the backend's
      reply (or its fixed apology text) to the question prompt built from a
      skill and the years of experience. */
  type Generator = (string, string) -> string

  /** `candidate_data`. Years of experience are kept as the submitted text. */
  datatype Candidate = Candidate(
    name: string,
    email: string,
    phone: string,
    exp: string,
    position: string,
    location: string,
    techStack: seq<string>)

  /** `st.session_state`, without the unused start time. */
  datatype SessionState = SessionState(
    phase: Phase,
    candidate: Candidate,
    questions: map<string, seq<string>>,
    techIndex: nat,
    questionIndex: nat,
    answers: map<string, seq<string>>,
    exitRequested: bool)

  /** What the user can do on the page: the greeting and summary buttons, the
      collection forms, the answer form, the three navigation buttons and
      the exit box. */
  datatype Event =
    | StartScreening
    | SubmitField(text: string)
    | SubmitAnswer(text: string)
    | NextQuestion
    | NextTechnology
    | ContinueToSummary
    | Finish
    | ExitInput(text: string)

  function BlankAnswers(): seq<string> {
    seq(QuestionsPerSkill, _ => "")
  }

  /** `{tech: [""] * TECH_Q_PER_SKILL for tech in tech_list}`: one entry per
      distinct skill name, so duplicates share their slots. */
  function FreshAnswers(stack: seq<string>): (m: map<string, seq<string>>)
    ensures m.Keys == set t | t in stack
  {
    map t | t in stack :: BlankAnswers()
  }

  /** Shape the answer and question tables always keep: three answer slots
      per answer entry, every generated skill has answer slots for its at
      most three questions, and a skill without questions has no answers
      yet. The page indexes these tables without checks. */
  predicate Valid(s: SessionState) {
    && (forall k :: k in s.answers ==> |s.answers[k]| == QuestionsPerSkill)
    && (forall k :: k in s.questions ==> k in s.answers && |s.questions[k]| <= QuestionsPerSkill)
    && (forall k :: k in s.answers && k !in s.questions ==> s.answers[k] == BlankAnswers())
  }

  /** `init_session_state`. */
  function Init(): (s: SessionState)
    ensures Valid(s)
    ensures s.phase == Greeting && !s.exitRequested
    ensures s.techIndex == 0 && s.questionIndex == 0
    ensures s.candidate == Candidate("", "", "", "", "", "", [])
    ensures s.questions == map[] && s.answers == map[]
  {
    SessionState(
      Greeting,
      Candidate("", "", "", "", "", "", []),
      map[], 0, 0, map[], false)
  }

  predicate HasCurrentSkill(s: SessionState) {
    s.techIndex < |s.candidate.techStack|
  }

  function CurrentSkill(s: SessionState): string
    requires HasCurrentSkill(s)
  {
    s.candidate.techStack[s.techIndex]
  }

  /** The current skill's questions are needed and not yet generated. */
  predicate NeedsGeneration(s: SessionState) {
    s.phase == AskQuestions && HasCurrentSkill(s) && CurrentSkill(s) !in s.questions
  }

  /** `extract_questions(...)[:TECH_Q_PER_SKILL]`. */
  function FirstQuestions(reply: string): (qs: seq<string>)
    ensures |qs| == if |ExtractQuestions(reply)| < QuestionsPerSkill
                    then |ExtractQuestions(reply)| else QuestionsPerSkill
    ensures qs <= ExtractQuestions(reply)
  {
    var all := ExtractQuestions(reply);
    if |all| <= QuestionsPerSkill then all else all[..QuestionsPerSkill]
  }

  /** The top of the ask-questions block: questions for the current skill are
      generated, truncated and stored, with fresh answer slots, only when the
      skill has none yet. */
  function GenerateIfAbsent(s: SessionState, gen: Generator): (r: SessionState)
    requires Valid(s)
    ensures Valid(r)
    ensures r.phase == s.phase && r.candidate == s.candidate && r.exitRequested == s.exitRequested
    ensures r.techIndex == s.techIndex && r.questionIndex == s.questionIndex
    ensures forall k :: k in s.questions ==> k in r.questions && r.questions[k] == s.questions[k]
    ensures forall k :: k in s.answers ==> k in r.answers && r.answers[k] == s.answers[k]
    ensures s.phase == AskQuestions && HasCurrentSkill(s) ==> CurrentSkill(s) in r.questions
    ensures HasCurrentSkill(s) ==>
      && r.questions.Keys <= s.questions.Keys + {CurrentSkill(s)}
      && r.answers.Keys <= s.answers.Keys + {CurrentSkill(s)}
    ensures !HasCurrentSkill(s) ==> r.questions == s.questions && r.answers == s.answers
    ensures !NeedsGeneration(s) ==> r == s
  {
    if NeedsGeneration(s) then
      var skill := CurrentSkill(s);
      s.(questions := s.questions[skill := FirstQuestions(gen(skill, s.candidate.exp))],
         answers := s.answers[skill := BlankAnswers()])
    else s
  }

  /** `[t.strip() for t in tech_stack_input.split(",") if t.strip()]`. */
  function ParseTechStack(text: string): (stack: seq<string>)
    ensures forall k :: 0 <= k < |stack| ==> stack[k] != [] && IsStripped(stack[k]) && ',' !in stack[k]
  {
    var pieces := Split(text, ',');
    NonBlankStrippedAvoids(pieces, ',');
    NonBlankStripped(pieces)
  }

  /** The collection forms (name through tech stack). An empty submission is
      ignored; a rejected one leaves the state as it was; an accepted one
      stores the stripped field and advances one phase. */
  function CollectField(s: SessionState, text: string): SessionState {
    var c := s.candidate;
    if text == [] then s
    else
      match s.phase
      case CollectName => Accept(s, c.(name := Strip(text)))
      case CollectEmail => if IsValidEmail(text) then Accept(s, c.(email := Strip(text))) else s
      case CollectPhone => if IsValidPhone(text) then Accept(s, c.(phone := Strip(text))) else s
      case CollectExp => if IsValidExperience(text) then Accept(s, c.(exp := Strip(text))) else s
      case CollectPosition => Accept(s, c.(position := Strip(text)))
      case CollectLocation => Accept(s, c.(location := Strip(text)))
      case CollectTechStack => AcceptTechStack(s, ParseTechStack(text))
      case _ => s
  }

  /** An accepted field: the updated record, one phase on. */
  function Accept(s: SessionState, c: Candidate): SessionState {
    s.(candidate := c, phase := Advance(s.phase))
  }

  /** An accepted tech stack starts the questions afresh; an empty one is
      rejected. */
  function AcceptTechStack(s: SessionState, stack: seq<string>): SessionState {
    if stack == [] then s
    else
      s.(candidate := s.candidate.(techStack := stack),
         questions := map[],
         techIndex := 0,
         questionIndex := 0,
         answers := FreshAnswers(stack),
         phase := Advance(s.phase))
  }

  /** Move to the next skill, back to its first question. */
  function NextSkill(s: SessionState): SessionState {
    s.(techIndex := s.techIndex + 1, questionIndex := 0)
  }

  /** The answer form and the navigation buttons of the ask-questions block,
      applied after `GenerateIfAbsent`. */
  function AskQuestionsStep(s: SessionState, e: Event): (r: SessionState)
    requires Valid(s)
    requires HasCurrentSkill(s) ==> CurrentSkill(s) in s.questions
    ensures Valid(r)
  {
    if !HasCurrentSkill(s) then
      if e.ContinueToSummary? then s.(phase := Advance(s.phase)) else s
    else
      var skill := CurrentSkill(s);
      var qs := s.questions[skill];
      var ans := s.answers[skill];
      var q := s.questionIndex;
      if q < |qs| then
        match e
        case SubmitAnswer(text) =>
          if text != [] then s.(answers := s.answers[skill := ans[q := text]]) else s
        case NextQuestion =>
          if ans[q] != [] && q + 1 < |qs| then s.(questionIndex := q + 1) else s
        case NextTechnology =>
          if ans[q] != [] && q + 1 >= |qs| then NextSkill(s) else s
        case _ => s
      else
        if e.NextTechnology? then NextSkill(s) else s
  }

  /** `show_exit_input` / `check_for_exit`: the box is offered in every phase
      but the last, and an exit word forces the final phase. */
  function ExitStep(s: SessionState, text: string): SessionState {
    if s.phase != End && IsExitCommand(text) then s.(phase := End, exitRequested := true) else s
  }

  /** One run of the page script with one user action. */
  function Step(s: SessionState, e: Event, gen: Generator): (r: SessionState)
    requires Valid(s)
    ensures Valid(r)
  {
    var t := GenerateIfAbsent(s, gen);
    if e.ExitInput? then ExitStep(t, e.text)
    else
      match t.phase
      case Greeting => if e.StartScreening? then t.(phase := Advance(t.phase)) else t
      case AskQuestions => AskQuestionsStep(t, e)
      case Summary => if e.Finish? then t.(phase := Advance(t.phase)) else t
      case End => t
      case _ => if e.SubmitField? then CollectField(t, e.text) else t
  }

  /** A sequence of interactions. */
  function Run(s: SessionState, es: seq<Event>, gen: Generator): (r: SessionState)
    requires Valid(s)
    ensures Valid(r)
    decreases |es|
  {
    if es == [] then s else Run(Step(s, es[0], gen), es[1..], gen)
  }
}
