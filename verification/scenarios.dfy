/** Worked examples: a full pass through any two-card deck (start, show,
    advance, show, advance), and a three-line text whose outer lines are
    two cards taken from the upload screen's placeholder examples. */
module Scenarios {
  import opened Wrappers
  import opened Text
  import opened Deck
  import opened Session

  /** Any two-card deck: a start with draw 2 asks for the word from the
      first card's translation; one reveal-and-advance (draw 0) asks for
      the second card's meaning; a second one finishes on the last card. */
  lemma TwoCardPass(s0: State, c1: Card, c2: Card)
    requires s0.cards == [c1, c2]
    ensures var s1 := StartStudying(s0, 2);
      var s2 := NextCard(Reveal(s1), 0);
      var s3 := NextCard(Reveal(s2), 1);
      && s1.mode == Study && s1.currentCardIndex == 0
      && GetQuestion(s1) == Some(Prompt(c1.translation, c1.word, WordLabel))
      && s2.mode == Study && s2.currentCardIndex == 1 && !s2.showAnswer
      && GetQuestion(s2) == Some(Prompt(c2.word, c2.meaning, MeaningLabel))
      && s3.mode == Finished && s3.currentCardIndex == 1
  {
  }

  /** The two cards taken from the placeholder's examples are writable. */
  lemma ExampleCardsWritable()
    ensures Writable(Card("casa", "lugar onde se vive", "house"))
    ensures Writable(Card("aprender", "adquirir conhecimento", "learn"))
  {
    ExampleField("casa");
    ExampleField("lugar onde se vive");
    ExampleField("house");
    ExampleField("aprender");
    ExampleField("adquirir conhecimento");
    ExampleField("learn");
  }

  /** A field made of letters and inner single spaces only. */
  lemma ExampleField(f: string)
    requires |f| > 0 && f[0] != ' ' && f[|f| - 1] != ' '
    requires forall i :: 0 <= i < |f| ==> f[i] == ' ' || 'a' <= f[i] <= 'z'
    ensures IsField(f) && '\n' !in f
  {
  }

  /** The added middle line has a single hyphen. */
  lemma ExampleBadLine()
    ensures '\n' !in "apender - x" && Count("apender - x", '-') == 1
  {
  }

  /** Two cards taken from the placeholder's examples, around an added
      line with a single hyphen, load as exactly those two cards: the
      middle line is dropped. */
  lemma ExampleDeck(t: string, c1: Card, b: string, c2: Card)
    requires c1 == Card("casa", "lugar onde se vive", "house")
    requires c2 == Card("aprender", "adquirir conhecimento", "learn")
    requires b == "apender - x"
    requires t == FormatLine(c1) + "\n" + b + "\n" + FormatLine(c2)
    ensures LoadText(Initial, t).cards == [c1, c2]
  {
    ExampleCardsWritable();
    ExampleBadLine();
    ParseSkipsMalformed(c1, b, c2);
  }
}
