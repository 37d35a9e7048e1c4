/** The study session of `FlashcardsApp`: the five pieces of component
    state, the handlers that update them, and the prompt shown for the
    current card. Each handler is one atomic update of the whole state. */
module Session {
  import opened Wrappers
  import opened Deck

  /** The `mode` string: `"upload"`, `"study"` or `"finished"`. */
  datatype Mode = Upload | Study | Finished

  /** The component state. `questionType` stays a string, as in the
      component, so that `getQuestion`'s fallback branch has a meaning. */
  datatype State = State(
    cards: seq<Card>,
    currentCardIndex: int,
    showAnswer: bool,
    mode: Mode,
    questionType: string)

  /** What the study screen shows for a card: the prompt, the hidden
      answer and the caption above them (the component's `label`). */
  datatype Prompt = Prompt(question: string, answer: string, caption: string)

  /** The types array of `getRandomQuestionType`, in its order. */
  const QuestionTypes: seq<string> := ["meaning", "translation", "word"]

  const MeaningLabel: string := "Qual o significado?"
  const TranslationLabel: string := "Qual a tradução?"
  const WordLabel: string := "Qual a palavra em português?"

  /** `Math.floor(Math.random() * types.length)`: an index into the types
      array, supplied by the caller in place of the random number. */
  type Draw = d: nat | d < 3

  /** The state the `useState` initialisers give. */
  const Initial: State := State([], 0, false, Upload, "meaning")

  /** `getRandomQuestionType`, with the draw made explicit. */
  function QuestionTypeOf(draw: Draw): (t: string)
    ensures t in QuestionTypes
  {
    QuestionTypes[draw]
  }

  /** `handleTextInput` and the `onload` of `handleFileUpload`: the text is
      parsed and replaces the deck; nothing else changes. */
  function LoadText(s: State, text: string): (r: State)
    ensures r.cards == Parse(text)
    ensures r.(cards := s.cards) == s
  {
    s.(cards := Parse(text))
  }

  /** `startStudying`. */
  function StartStudying(s: State, draw: Draw): (r: State)
    ensures |s.cards| == 0 ==> r == s
    ensures |s.cards| > 0 ==>
      && r.cards == s.cards && r.mode == Study
      && r.currentCardIndex == 0 && !r.showAnswer
      && r.questionType == QuestionTypes[draw]
  {
    if |s.cards| > 0 then
      s.(mode := Study, currentCardIndex := 0, showAnswer := false,
         questionType := QuestionTypeOf(draw))
    else s
  }

  /** The "show answer" button's `setShowAnswer(true)`: the answer becomes
      visible and nothing else changes, in particular not the question type. */
  function Reveal(s: State): (r: State)
    ensures r.showAnswer
    ensures r.(showAnswer := s.showAnswer) == s
  {
    s.(showAnswer := true)
  }

  /** `nextCard`. It checks neither the mode nor `showAnswer`. */
  function NextCard(s: State, draw: Draw): (r: State)
    ensures r.cards == s.cards
    ensures s.currentCardIndex < |s.cards| - 1 ==>
      && r.currentCardIndex == s.currentCardIndex + 1
      && r.mode == s.mode && !r.showAnswer
      && r.questionType == QuestionTypes[draw]
    ensures s.currentCardIndex >= |s.cards| - 1 ==> r == s.(mode := Finished)
  {
    if s.currentCardIndex < |s.cards| - 1 then
      s.(currentCardIndex := s.currentCardIndex + 1, showAnswer := false,
         questionType := QuestionTypeOf(draw))
    else s.(mode := Finished)
  }

  /** `restart`: back to the first card of the same deck. */
  function Restart(s: State, draw: Draw): (r: State)
    ensures r.cards == s.cards && r.mode == Study
    ensures r.currentCardIndex == 0 && !r.showAnswer
    ensures r.questionType == QuestionTypes[draw]
  {
    s.(currentCardIndex := 0, showAnswer := false, mode := Study,
       questionType := QuestionTypeOf(draw))
  }

  /** `resetAll`: the deck is dropped and the upload screen returns. The
      question type is the one field it leaves alone. */
  function ResetAll(s: State): (r: State)
    ensures r.cards == [] && r.mode == Upload
    ensures r.currentCardIndex == 0 && !r.showAnswer
    ensures r.questionType == s.questionType
  {
    s.(cards := [], mode := Upload, currentCardIndex := 0, showAnswer := false)
  }

  /** `getQuestion`. Reading a field of `cards[currentCardIndex]` when the
      index is out of range reads a field of `undefined`, a `TypeError`:
      that outcome is `None`. A question type outside the three falls to
      the `default` branch, which touches no card. */
  function GetQuestion(s: State): (r: Option<Prompt>)
    ensures s.questionType in QuestionTypes ==>
      (r.Some? <==> 0 <= s.currentCardIndex < |s.cards|)
    ensures s.questionType !in QuestionTypes ==> r == Some(Prompt("", "", ""))
  {
    var i := s.currentCardIndex;
    if s.questionType == "meaning" then
      if 0 <= i < |s.cards| then
        Some(Prompt(s.cards[i].word, s.cards[i].meaning, MeaningLabel))
      else None
    else if s.questionType == "translation" then
      if 0 <= i < |s.cards| then
        Some(Prompt(s.cards[i].word, s.cards[i].translation, TranslationLabel))
      else None
    else if s.questionType == "word" then
      if 0 <= i < |s.cards| then
        Some(Prompt(s.cards[i].translation, s.cards[i].word, WordLabel))
      else None
    else Some(Prompt("", "", ""))
  }

  /** The "Card i de n" counter of the study screen: the 1-based position
      of the current card and the deck size. */
  function Progress(s: State): (p: (int, int))
    ensures p.0 == s.currentCardIndex + 1 && p.1 == |s.cards|
    ensures 0 <= s.currentCardIndex < |s.cards| ==> 1 <= p.0 <= p.1
  {
    (s.currentCardIndex + 1, |s.cards|)
  }

  // ---------------------------------------------------------------------
  // The session as driven through its screens

  /** A user action on one of the three screens. */
  datatype Event =
    | TextInput(text: string)   // typing or pasting; also a file load, taken to finish on the upload screen
    | Start(draw: Draw)         // "Começar a estudar"
    | ShowAnswer                // "Mostrar Resposta"
    | Next(draw: Draw)          // "Próximo Card"
    | StudyAgain(draw: Draw)    // "Estudar Novamente"
    | NewDeck                   // "Recomeçar" or "Novo Deck"

  /** Whether the screen of the current mode offers the action: the text
      input and an enabled start button (non-empty deck) on the upload
      screen, the answer button while the answer is hidden and the next
      button once it is shown on the study screen, restart on the finished
      screen, and reset on both of the latter. */
  predicate Enabled(s: State, e: Event) {
    match e
    case TextInput(_) => s.mode == Upload
    case Start(_) => s.mode == Upload && |s.cards| > 0
    case ShowAnswer => s.mode == Study && !s.showAnswer
    case Next(_) => s.mode == Study && s.showAnswer
    case StudyAgain(_) => s.mode == Finished
    case NewDeck => s.mode == Study || s.mode == Finished
  }

  /** No screen is a dead end: every state offers some action. */
  lemma NoDeadEnd(s: State)
    ensures exists e :: Enabled(s, e)
  {
    match s.mode
    case Upload => assert Enabled(s, TextInput(""));
    case Study => assert Enabled(s, ShowAnswer) || Enabled(s, Next(0));
    case Finished => assert Enabled(s, NewDeck);
  }

  /** The study screen offers exactly one of the answer button and the
      next button, according to whether the answer is shown. */
  lemma StudyButtons(s: State, d: Draw)
    requires s.mode == Study
    ensures Enabled(s, ShowAnswer) != Enabled(s, Next(d))
    ensures Enabled(s, Next(d)) <==> s.showAnswer
  {
  }

  /** The handler each action invokes. */
  function Step(s: State, e: Event): State {
    match e
    case TextInput(text) => LoadText(s, text)
    case Start(d) => StartStudying(s, d)
    case ShowAnswer => Reveal(s)
    case Next(d) => NextCard(s, d)
    case StudyAgain(d) => Restart(s, d)
    case NewDeck => ResetAll(s)
  }

  /** Every action of `events` is offered by the screen it happens on. */
  predicate ValidRun(s: State, events: seq<Event>)
    decreases |events|
  {
    |events| == 0 || (Enabled(s, events[0]) && ValidRun(Step(s, events[0]), events[1..]))
  }

  function Run(s: State, events: seq<Event>): State
    decreases |events|
  {
    if |events| == 0 then s else Run(Step(s, events[0]), events[1..])
  }

  /** The cross-field consistency of the state: the question type is one of
      the three, the study screen points at a card of the deck, the
      finished screen sits on the last card of a non-empty deck, and the
      upload screen has the index and answer flag at their initial values. */
  predicate Inv(s: State) {
    && s.questionType in QuestionTypes
    && (s.mode == Upload ==> s.currentCardIndex == 0 && !s.showAnswer)
    && (s.mode == Study ==> 0 <= s.currentCardIndex < |s.cards|)
    && (s.mode == Finished ==> |s.cards| > 0 && s.currentCardIndex == |s.cards| - 1)
  }

  lemma InitialInv()
    ensures Inv(Initial)
  {
  }

  /** Every action the screens offer keeps the state consistent. */
  lemma StepInv(s: State, e: Event)
    requires Inv(s) && Enabled(s, e)
    ensures Inv(Step(s, e))
  {
  }

  /** Every sequence of offered actions keeps the state consistent. */
  lemma {:induction false} RunInv(s: State, events: seq<Event>)
    requires Inv(s) && ValidRun(s, events)
    ensures Inv(Run(s, events))
    decreases |events|
  {
    if |events| > 0 {
      StepInv(s, events[0]);
      RunInv(Step(s, events[0]), events[1..]);
    }
  }

  /** In every study screen reachable from the initial state, `getQuestion`
      yields a real prompt: never the fallback branch and never a read past
      the deck. The prompt and answer are (word, meaning) for `"meaning"`,
      (word, translation) for `"translation"` and (translation, word) for
      `"word"`. */
  lemma {:induction false} ReachablePrompt(events: seq<Event>)
    requires ValidRun(Initial, events)
    ensures var s := Run(Initial, events);
      s.mode == Study ==>
      && s.questionType in QuestionTypes
      && 0 <= s.currentCardIndex < |s.cards|
      && var c := s.cards[s.currentCardIndex];
         && (s.questionType == "meaning" ==>
               GetQuestion(s) == Some(Prompt(c.word, c.meaning, MeaningLabel)))
         && (s.questionType == "translation" ==>
               GetQuestion(s) == Some(Prompt(c.word, c.translation, TranslationLabel)))
         && (s.questionType == "word" ==>
               GetQuestion(s) == Some(Prompt(c.translation, c.word, WordLabel)))
  {
    RunInv(Initial, events);
  }

  /** In every study screen reachable from the initial state, the counter
      shows a position between 1 and the deck size. */
  lemma {:induction false} ReachableProgress(events: seq<Event>)
    requires ValidRun(Initial, events)
    ensures var s := Run(Initial, events);
      s.mode == Study ==> 1 <= Progress(s).0 <= Progress(s).1
  {
    RunInv(Initial, events);
  }

  /** The file reader's `onload` is gated by no screen. Should it fire on
      the study screen with text that has no card, the deck empties under
      the current index: the state is no longer consistent and
      `getQuestion` would read a field of `undefined`. */
  lemma LateLoadEmptiesDeck(s: State, text: string)
    requires Inv(s) && s.mode == Study
    requires '-' !in text
    ensures LoadText(s, text).mode == Study
    ensures !Inv(LoadText(s, text))
    ensures GetQuestion(LoadText(s, text)) == None
  {
    ParseNoHyphen(text);
  }

  /** The `"word"` question is the `"translation"` question turned round:
      its prompt is the other's answer and its answer the other's prompt. */
  lemma WordReversesTranslation(s: State)
    requires 0 <= s.currentCardIndex < |s.cards|
    ensures var w := GetQuestion(s.(questionType := "word"));
      var t := GetQuestion(s.(questionType := "translation"));
      w.Some? && t.Some? && w.value.question == t.value.answer && w.value.answer == t.value.question
  {
  }

  /** `nextCard` keeps the index inside the deck, whatever the mode. */
  lemma NextCardInRange(s: State, draw: Draw)
    requires 0 <= s.currentCardIndex < |s.cards|
    ensures 0 <= NextCard(s, draw).currentCardIndex < |NextCard(s, draw).cards|
    ensures NextCard(s, draw).mode == Finished <==>
      s.mode == Finished || s.currentCardIndex == |s.cards| - 1
  {
  }

  /** Once finished on the last card, further `nextCard` calls change nothing. */
  lemma FinishedIsStable(s: State, draw: Draw)
    requires s.mode == Finished && s.currentCardIndex == |s.cards| - 1
    ensures NextCard(s, draw) == s
  {
  }

  /** `nextCard` applied once per draw, in order. */
  function Advance(s: State, draws: seq<Draw>): State
    decreases |draws|
  {
    if |draws| == 0 then s else Advance(NextCard(s, draws[0]), draws[1..])
  }

  lemma {:induction false} AdvanceSnoc(s: State, draws: seq<Draw>, d: Draw)
    ensures Advance(s, draws + [d]) == NextCard(Advance(s, draws), d)
    decreases |draws|
  {
    if |draws| > 0 {
      assert (draws + [d])[1..] == draws[1..] + [d];
      AdvanceSnoc(NextCard(s, draws[0]), draws[1..], d);
    }
  }

  /** Advancing k times from card i, with i + k still inside the deck,
      keeps the mode, whatever it is, and lands on card i + k with the
      answer hidden and the last draw's question type. */
  lemma {:induction false} AdvanceWithinDeck(s: State, draws: seq<Draw>)
    requires 0 <= s.currentCardIndex
    requires s.currentCardIndex + |draws| < |s.cards|
    ensures var r := Advance(s, draws);
      && r.cards == s.cards && r.mode == s.mode
      && r.currentCardIndex == s.currentCardIndex + |draws|
      && (|draws| > 0 ==> !r.showAnswer && r.questionType == QuestionTypes[draws[|draws| - 1]])
    decreases |draws|
  {
    if |draws| > 0 {
      var s' := NextCard(s, draws[0]);
      AdvanceWithinDeck(s', draws[1..]);
      if |draws| > 1 {
        assert draws[1..][|draws[1..]| - 1] == draws[|draws| - 1];
      }
    }
  }

  /** Fewer `nextCard` calls than the deck has cards, after a start,
      leave the session studying the card whose index is their number. */
  lemma {:induction false} StartThenAdvance(s0: State, d: Draw, draws: seq<Draw>)
    requires |draws| < |s0.cards|
    ensures Advance(StartStudying(s0, d), draws).cards == s0.cards
    ensures Advance(StartStudying(s0, d), draws).mode == Study
    ensures Advance(StartStudying(s0, d), draws).currentCardIndex == |draws|
  {
    AdvanceWithinDeck(StartStudying(s0, d), draws);
  }

  /** Starting on a deck of N cards, the first N - 1 calls of `nextCard`
      stay in study mode, the k-th landing on card k, and the N-th call
      finishes on the last card. */
  lemma {:induction false} FinishesAfterN(s0: State, d: Draw, draws: seq<Draw>)
    requires |s0.cards| >= 1 && |draws| == |s0.cards|
    ensures forall k :: 0 <= k < |draws| ==>
      Advance(StartStudying(s0, d), draws[..k]).mode == Study &&
      Advance(StartStudying(s0, d), draws[..k]).currentCardIndex == k
    ensures Advance(StartStudying(s0, d), draws).mode == Finished
    ensures Advance(StartStudying(s0, d), draws).currentCardIndex == |s0.cards| - 1
  {
    forall k | 0 <= k < |draws|
      ensures Advance(StartStudying(s0, d), draws[..k]).mode == Study
      ensures Advance(StartStudying(s0, d), draws[..k]).currentCardIndex == k
    {
      StartThenAdvance(s0, d, draws[..k]);
    }
    var s := StartStudying(s0, d);
    var n := |draws| - 1;
    StartThenAdvance(s0, d, draws[..n]);
    AdvanceSnoc(s, draws[..n], draws[n]);
    assert draws[..n] + [draws[n]] == draws;
  }

  /** On a non-empty deck, `restart` is exactly a fresh `startStudying`
      with the same draw: the deck survives, the position does not. */
  lemma RestartIsFreshStart(s: State, s0: State, d: Draw)
    requires s.cards == s0.cards && |s.cards| > 0
    ensures Restart(s, d) == StartStudying(s0, d)
  {
  }

  /** `restart` does not check the deck: called on an empty deck, as no
      screen lets it be, it enters study mode with no card to show, and
      `getQuestion` would read a field of `undefined`. */
  lemma RestartOnEmptyDeck(s: State, d: Draw)
    requires |s.cards| == 0
    ensures Restart(s, d).mode == Study
    ensures GetQuestion(Restart(s, d)) == None
  {
  }

  /** `resetAll` forgets everything but the question type: two states
      reset to the same state exactly when their question types agree. */
  lemma ResetForgets(s: State, t: State)
    ensures ResetAll(s) == ResetAll(t) <==> s.questionType == t.questionType
  {
  }

  /** Reset is the initial state up to the question type it leaves. */
  lemma ResetIsInitial(s: State)
    ensures ResetAll(s) == Initial.(questionType := s.questionType)
    ensures s.questionType in QuestionTypes ==> Inv(ResetAll(s))
  {
  }

  /** Showing the answer twice is showing it once. */
  lemma RevealIdempotent(s: State)
    ensures Reveal(Reveal(s)) == Reveal(s)
  {
  }
}
