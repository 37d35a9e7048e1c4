# Flashcards: deck parser and study session, in Dafny

This project models the logic of the single-page flashcard app `FlashcardsApp`
(`app/page.tsx`). That logic has two parts:

- **The deck parser.** `parseTextFile` turns pasted or uploaded text into cards.
  The text has one `word - meaning - translation` entry per line. Blank lines
  are filtered out. Every other line is split on each `-` and the segments are
  trimmed. A line becomes a card only when it has exactly three segments.
- **The study session.** The component state is the deck, the current index,
  the answer flag, the mode (`upload`, `study` or `finished`) and the question
  type. The handlers `startStudying`, `nextCard`, `restart` and `resetAll`
  update that state, and so does the inline reveal handler. `getQuestion` turns
  the current card and question type into a prompt, an answer and a caption.

Layout:

- `wrappers.dfy`: the `Option` datatype.
- `seqs.dfy`: order-preserving `Filter` and `FilterMap`, with their lemmas.
- `text.dfy`: `String.prototype.split` on one character, `String.prototype.trim`,
  and their characterisations.
- `deck.dfy`: `Card`, the parser, and its properties. These include a writer for
  the documented line format, and the round trip through it.
- `session.dfy`: the session state, the handlers as pure functions, `getQuestion`,
  the screens' gating of user actions, and the session invariants.
- `scenarios.dfy`: two cards taken from the upload screen's placeholder
  examples, around an added one-hyphen line, and a full pass through a two-card
  deck.

The random draw `Math.floor(Math.random() * 3)` becomes an explicit parameter.
It has the type `Draw`, the naturals below 3. `questionType` is kept as a string,
as in the component, so that the `default` branch of `getQuestion` exists in the
model. It is proved unreachable from every state the screens can reach. A
`getQuestion` call whose index is outside the deck reads a field of `undefined`
in JavaScript, which throws a `TypeError`. The model returns `None` for that case.

Three behaviours of the code are worth stating plainly:

- The parser does not reject empty fields: `"a--b"` gives a card with an empty
  meaning (`Deck.ParseBareLine`).
- The handlers check neither the mode nor `showAnswer`; only the screens gate
  them (`Session.Enabled`). The model keeps the handlers unguarded and states
  the gating separately.
- The captions are the component's Portuguese strings, kept verbatim.

## Model

| member | source | states |
|---|---|---|
| `Text.Split` | app/page.tsx:19 | splitting on a separator yields one more piece than there are separators, and no piece contains the separator |
| `Text.JoinSplit` | app/page.tsx:19 | splitting loses nothing: joining the pieces with the separator gives back the original text |
| `Text.SplitJoin` | app/page.tsx:19 | any non-empty list of separator-free pieces is exactly what splitting their join returns, so the split is the unique such decomposition |
| `Text.SplitAppend` | app/page.tsx:14 | splitting text glued by a separator gives the pieces of the left part followed by the pieces of the right part |
| `Text.Trim` | app/page.tsx:19 | trimming yields a slice of the input with no whitespace at either end, and everything after that slice is whitespace |
| `Text.TrimUnique` | app/page.tsx:19 | whatever whitespace padding surrounds a trimmed string, trimming removes exactly that padding |
| `Text.TrimEmpty` | app/page.tsx:14 | a line trims to the empty, falsy string exactly when it is all whitespace |
| `Deck.LinesOfText` | app/page.tsx:14 | the lines are the newline-free pieces of the text, one more than it has newlines, and joined with newlines they give the text back |
| `Deck.NotBlankHasText` | app/page.tsx:14 | the blank filter keeps a line exactly when some character of it is not whitespace |
| `Deck.CardOfHyphens` | app/page.tsx:19-20 | a line yields a card exactly when it has two hyphens, that is, when it splits into exactly three segments |
| `Deck.CardOfParsed` | app/page.tsx:19-25 | every field of a line's card is trimmed and free of hyphens |
| `Deck.CardOfFields` | app/page.tsx:19-25 | a line with two hyphens is three hyphen-free segments joined by hyphens, and its card's word, meaning and translation are those segments, trimmed, in that order |
| `Deck.CardOfThree` | app/page.tsx:19-25 | three hyphen-free segments joined by hyphens yield the card of their trimmed forms |
| `Deck.Parse` | app/page.tsx:13-30 | parsing never fails, and it yields at most one card per line of the text |
| `Deck.CollectCards` | app/page.tsx:17-29 | the loop pushes, in line order, exactly the cards of the lines that have one |
| `Deck.ParseShape` | app/page.tsx:14-25 | every parsed card comes from a line with exactly two hyphens, and its fields are that line's trimmed segments, free of hyphens and surrounding whitespace |
| `Deck.BlankHasNoCard` | app/page.tsx:14 | a line the blank filter drops could not have produced a card anyway |
| `Deck.ParseIgnoresBlankFilter` | app/page.tsx:14 | with or without the blank-line filter, the parser yields the same cards |
| `Deck.ParseAppend` | app/page.tsx:14-29 | parsing two texts joined by a newline yields the first text's cards followed by the second text's cards |
| `Deck.ParseOneLine` | app/page.tsx:19-26 | a single line yields its card when it has exactly two hyphens, and nothing when it has fewer or more |
| `Deck.ParseNoHyphen` | app/page.tsx:14-20 | text without a hyphen yields no cards |
| `Deck.ParseBlank` | app/page.tsx:14 | empty and whitespace-only text yields the empty deck |
| `Deck.ParseBareLine` | app/page.tsx:19-25 | three trimmed hyphen-free fields joined by bare hyphens parse to exactly that card, empty fields included |
| `Deck.FormatLineRoundTrip` | app/page.tsx:19-25 | a card written as `word - meaning - translation` parses back to the same card |
| `Deck.FormatDeckRoundTrip` | app/page.tsx:13-30 | a deck written one card per line parses back to the same deck, in the same order |
| `Deck.ParseSkipsMalformed` | app/page.tsx:17-27 | a line without exactly two hyphens between two good lines is dropped, and the cards on either side are still read |
| `Session.InitialInv` | app/page.tsx:7-11 | the initial state (empty deck, index 0, answer hidden, upload screen, `meaning`) is consistent |
| `Session.QuestionTypeOf` | app/page.tsx:59-62 | every draw yields one of the three question types |
| `Session.LoadText` | app/page.tsx:45-48 | loading text replaces the deck with the parsed cards and changes nothing else |
| `Session.StartStudying` | app/page.tsx:50-57 | on an empty deck, starting changes nothing; otherwise it enters study mode at card 0 with the answer hidden and the drawn question type, and keeps the deck |
| `Session.Reveal` | app/page.tsx:249 | revealing shows the answer and changes nothing else, in particular not the question type |
| `Session.RevealIdempotent` | app/page.tsx:249 | showing the answer twice is the same as showing it once |
| `Session.NextCard` | app/page.tsx:64-72 | before the last card, advancing moves exactly one card on, hides the answer and takes the drawn question type; otherwise it finishes and leaves everything else, the index included, unchanged |
| `Session.Restart` | app/page.tsx:74-79 | restarting keeps the deck and returns to study mode at card 0 with the answer hidden and the drawn question type |
| `Session.ResetAll` | app/page.tsx:81-86 | resetting empties the deck and returns to the upload screen with index 0 and the answer hidden, keeping only the question type |
| `Session.GetQuestion` | app/page.tsx:88-111 | for one of the three question types, a prompt exists exactly when the index is inside the deck; any other type gives the empty fallback prompt |
| `Session.Progress` | app/page.tsx:213 | the counter's first number is the index plus one and its second the deck size, and the first lies between 1 and the second whenever the index is inside the deck |
| `Session.ReachableProgress` | app/page.tsx:213 | on every study screen the actions can reach, the counter shows a position between 1 and the deck size |
| `Session.NoDeadEnd` | app/page.tsx:180-182 | every screen offers at least one action |
| `Session.StudyButtons` | app/page.tsx:241-260 | the study screen offers exactly one of the answer button and the next button: the next button exactly when the answer is shown |
| `Session.LateLoadEmptiesDeck` | app/page.tsx:36-40 | a file load landing on the study screen with hyphen-free text empties the deck under the open study screen, which then has no prompt to show |
| `Session.StepInv` | app/page.tsx:180-182 | every action the screens offer keeps the state consistent: a valid question type, a study index inside the deck, a finished index on the last card |
| `Session.RunInv` | app/page.tsx:7-11 | every sequence of actions the screens offer, starting from a consistent state, keeps the state consistent |
| `Session.ReachablePrompt` | app/page.tsx:88-111 | in every reachable study screen, `getQuestion` never takes the fallback branch and never reads past the deck; it yields (word, meaning), (word, translation) or (translation, word) |
| `Session.WordReversesTranslation` | app/page.tsx:97-108 | the `word` question is the `translation` question turned round: each one's prompt is the other's answer |
| `Session.NextCardInRange` | app/page.tsx:64-72 | from an index inside the deck, advancing keeps the index inside the deck, and it finishes exactly when already finished or on the last card |
| `Session.FinishedIsStable` | app/page.tsx:69-71 | once finished on the last card, a further advance changes nothing |
| `Session.AdvanceWithinDeck` | app/page.tsx:64-68 | k advances from card i, with i + k still inside the deck, keep the deck and the mode, whatever it is, and land on card i + k; after at least one advance the answer is hidden and the question type is the last draw's |
| `Session.StartThenAdvance` | app/page.tsx:50-68 | after a start, fewer advances than the deck has cards leave the session studying the card whose index is the number of advances |
| `Session.FinishesAfterN` | app/page.tsx:50-72 | on a deck of N cards, the first N - 1 advances after a start stay in study mode, the k-th on card k, and the N-th finishes on card N - 1 |
| `Session.RestartIsFreshStart` | app/page.tsx:74-79 | on a non-empty deck, restarting is exactly a fresh start with the same draw |
| `Session.RestartOnEmptyDeck` | app/page.tsx:74-79 | restart does not check the deck: on an empty deck it enters study mode with no card to show, so only the screens keep it from being reached |
| `Session.ResetForgets` | app/page.tsx:81-86 | two states reset to the same state exactly when their question types agree |
| `Session.ResetIsInitial` | app/page.tsx:81-86 | resetting gives the initial state, apart from the retained question type, and that state is consistent |
| `Scenarios.TwoCardPass` | app/page.tsx:50-72 | on any two-card deck, start, reveal, advance, reveal, advance shows the drawn prompts and ends finished on the last card |
| `Scenarios.ExampleDeck` | app/page.tsx:166 | two cards taken from the placeholder's examples, around an added one-hyphen line, load as exactly those two cards |

## Left out

- JSX rendering, styling and icons (app/page.tsx:114-303): presentation only. The one piece of it that matters for the state is which buttons each screen shows and enables. That is modelled as `Session.Enabled`.
- `FileReader` and `handleFileUpload` (app/page.tsx:32-43): browser I/O. The text the reader delivers is handed to `Session.LoadText`, which is the model of the `onload` callback and of `handleTextInput`.
- `Session.Enabled`: the reader's `onload` (app/page.tsx:36-40) is gated by no screen, but the model assumes it arrives while the upload screen is shown, as a `TextInput` event. A load that lands later is not a step of the session runs; `Session.LateLoadEmptiesDeck` shows what it does to a study screen.
- `Math.random()` and `Math.floor` (app/page.tsx:61): floating-point randomness. The caller supplies the draw as a `Draw` in `{0, 1, 2}`. Statistical claims about the draws, such as all three types eventually appearing, are not modelled.
- The progress bar width (app/page.tsx:229): floating-point division for display only. The card counter is `Session.Progress`.
- React `useState` batching and hook semantics: each handler is one atomic update of the whole state.
- UTF-16 code units: JavaScript strings are sequences of code units, and Dafny's `char` is a Unicode scalar value. The separators `-` and `\n` and every whitespace character `trim` removes lie in the Basic Multilingual Plane. No surrogate can equal one of them, so split and trim give the same results under both views.
- The caption strings are included verbatim. Their content is not the subject of any property.
