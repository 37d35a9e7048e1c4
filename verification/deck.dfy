/** The line-oriented deck parser (`parseTextFile`): one card per line of
    the form `word - meaning - translation`, every other line skipped. */
module Deck {
  import opened Wrappers
  import opened Text
  import opened Seqs

  /** One vocabulary entry. The parser does not reject empty fields. */
  datatype Card = Card(word: string, meaning: string, translation: string)

  /** A field as the parser can produce it: trimmed and hyphen-free. */
  predicate IsField(f: string) {
    IsTrimmed(f) && '-' !in f
  }

  predicate IsParsedCard(c: Card) {
    IsField(c.word) && IsField(c.meaning) && IsField(c.translation)
  }

  /** `text.split("\n")`. */
  function Lines(text: string): seq<string> {
    Split(text, '\n')
  }

  /** The `filter((line) => line.trim())` test: a line is kept when its
      trimmed form is a non-empty, truthy string. */
  predicate NotBlank(line: string) {
    Trim(line) != []
  }

  /** The lines are the newline-free pieces of the text, one more than it
      has newlines, and joining them with newlines gives the text back. */
  lemma LinesOfText(text: string)
    ensures |Lines(text)| == Count(text, '\n') + 1
    ensures forall i :: 0 <= i < |Lines(text)| ==> '\n' !in Lines(text)[i]
    ensures Join(Lines(text), '\n') == text
  {
    JoinSplit(text, '\n');
  }

  /** The filter keeps a line exactly when some character of it is not
      whitespace. */
  lemma NotBlankHasText(line: string)
    ensures NotBlank(line) <==> exists i :: 0 <= i < |line| && !IsSpace(line[i])
  {
    TrimEmpty(line);
  }

  /** The card a single line yields: `line.split("-").map((p) => p.trim())`
      must have exactly three segments, which become the fields in order. */
  function CardOf(line: string): Option<Card> {
    var pieces := Split(line, '-');
    if |pieces| == 3 then Some(Card(Trim(pieces[0]), Trim(pieces[1]), Trim(pieces[2])))
    else None
  }

  /** A line has a card exactly when it has two hyphens, that is, when it
      splits into exactly three segments. */
  lemma CardOfHyphens(line: string)
    ensures CardOf(line).Some? <==> Count(line, '-') == 2
  {
  }

  /** The fields of a line's card are trimmed and hyphen-free. */
  lemma CardOfParsed(line: string)
    requires CardOf(line).Some?
    ensures IsParsedCard(CardOf(line).value)
  {
    var pieces := Split(line, '-');
    forall k, c | 0 <= k < 3 && c in Trim(pieces[k]) ensures c != '-' {
      TrimChars(pieces[k], c);
    }
  }

  /** `parseTextFile`. It never fails: the worst case is an empty deck, and
      there are never more cards than lines. */
  function Parse(text: string): (cards: seq<Card>)
    ensures |cards| <= Count(text, '\n') + 1
  {
    FilterMap(Filter(Lines(text), NotBlank), CardOf)
  }

  /** The loop of `parseTextFile` as written: each kept line's card, if
      it has one, is pushed onto the result. */
  method CollectCards(lines: seq<string>) returns (parsedCards: seq<Card>)
    ensures parsedCards == FilterMap(lines, CardOf)
  {
    parsedCards := [];
    var i := 0;
    while i < |lines|
      invariant 0 <= i <= |lines|
      invariant parsedCards == FilterMap(lines[..i], CardOf)
    {
      var line := lines[i];
      var card := CardOf(line);
      assert FilterMap(lines[..i + 1], CardOf) == parsedCards + card.ToSeq() by {
        FilterMapPrefix(lines, i, CardOf);
      }
      if card.Some? {
        parsedCards := parsedCards + [card.value];
      }
      i := i + 1;
    }
    assert lines[..i] == lines;
  }

  /** A line with two hyphens is three hyphen-free segments glued by
      hyphens, and its card has those segments, trimmed, as its fields in
      order: the text before, between and after the two hyphens. */
  lemma CardOfFields(line: string)
    requires Count(line, '-') == 2
    ensures exists x, y, z ::
      && '-' !in x && '-' !in y && '-' !in z
      && line == x + "-" + y + "-" + z
      && CardOf(line) == Some(Card(Trim(x), Trim(y), Trim(z)))
  {
    var p := Split(line, '-');
    assert |p| == 3;
    assert line == p[0] + "-" + p[1] + "-" + p[2] by {
      JoinSplit(line, '-');
      JoinThree(p, '-');
    }
    assert '-' !in p[0] && '-' !in p[1] && '-' !in p[2];
    assert CardOf(line) == Some(Card(Trim(p[0]), Trim(p[1]), Trim(p[2])));
  }

  /** Every parsed card comes from a line of the text with exactly two
      hyphens, its fields are that line's trimmed segments in order, and
      so no field has surrounding whitespace or contains a hyphen. */
  lemma ParseShape(text: string)
    ensures forall c :: c in Parse(text) ==>
      && IsParsedCard(c)
      && exists l :: l in Lines(text) && Count(l, '-') == 2 &&
                     (var p := Split(l, '-'); c == Card(Trim(p[0]), Trim(p[1]), Trim(p[2])))
  {
    var kept := Filter(Lines(text), NotBlank);
    forall c | c in Parse(text)
      ensures IsParsedCard(c)
      ensures exists l :: l in Lines(text) && Count(l, '-') == 2 &&
                          (var p := Split(l, '-'); c == Card(Trim(p[0]), Trim(p[1]), Trim(p[2])))
    {
      FilterMapProvenance(kept, CardOf, c);
      var l :| l in kept && CardOf(l) == Some(c);
      CardOfHyphens(l);
      CardOfParsed(l);
    }
  }

  /** A blank line never has three segments, so the blank-line filter
      changes nothing about which cards come out. */
  lemma BlankHasNoCard(line: string)
    requires !NotBlank(line)
    ensures CardOf(line) == None
  {
    TrimEmpty(line);
    assert !IsSpace('-');
    assert '-' !in line;
    CountZero(line, '-');
    CardOfHyphens(line);
  }

  /** `Parse` is the line-by-line card extraction, blank-line filter or not. */
  lemma ParseIgnoresBlankFilter(text: string)
    ensures Parse(text) == FilterMap(Lines(text), CardOf)
  {
    forall l | !NotBlank(l) ensures CardOf(l) == None {
      BlankHasNoCard(l);
    }
    FilterMapAfterFilter(Lines(text), NotBlank, CardOf);
  }

  /** Parsing distributes over newline concatenation: the cards of two
      texts glued by a line break are the cards of the first followed by
      the cards of the second. */
  lemma ParseAppend(a: string, b: string)
    ensures Parse(a + "\n" + b) == Parse(a) + Parse(b)
  {
    SplitAppend(a, b, '\n');
    ParseIgnoresBlankFilter(a + "\n" + b);
    ParseIgnoresBlankFilter(a);
    ParseIgnoresBlankFilter(b);
    FilterMapAppend(Lines(a), Lines(b), CardOf);
  }

  /** A single line yields its card when it has exactly two hyphens and
      nothing otherwise. With `ParseAppend` this determines `Parse`. */
  lemma ParseOneLine(line: string)
    requires '\n' !in line
    ensures Count(line, '-') == 2 ==> Parse(line) == [CardOf(line).value]
    ensures Count(line, '-') != 2 ==> Parse(line) == []
  {
    SplitNoSeparator(line, '\n');
    CardOfHyphens(line);
    ParseIgnoresBlankFilter(line);
    FilterMapSnoc([], line, CardOf);
    assert [] + [line] == [line];
  }

  /** Every character of every piece of a split comes from the split text. */
  lemma {:induction false} SplitPieceChars(s: string, d: char, i: nat, c: char)
    requires i < |Split(s, d)| && c in Split(s, d)[i]
    ensures c in s
  {
    if |s| > 0 {
      var rest := Split(s[1..], d);
      if s[0] == d {
        SplitPieceChars(s[1..], d, i - 1, c);
      } else if i == 0 {
        if c != s[0] {
          assert c in rest[0];
          SplitPieceChars(s[1..], d, 0, c);
        }
      } else {
        SplitPieceChars(s[1..], d, i, c);
      }
    }
  }

  /** Text without a hyphen yields no cards. */
  lemma ParseNoHyphen(text: string)
    requires '-' !in text
    ensures Parse(text) == []
  {
    var lines := Lines(text);
    forall i | 0 <= i < |lines| ensures CardOf(lines[i]) == None {
      forall c | c in lines[i] ensures c != '-' {
        SplitPieceChars(text, '\n', i, c);
      }
      CountZero(lines[i], '-');
      CardOfHyphens(lines[i]);
    }
    FilterMapNone(lines, CardOf);
    ParseIgnoresBlankFilter(text);
  }

  /** Empty and whitespace-only text yields the empty deck. */
  lemma ParseBlank(text: string)
    requires AllSpace(text)
    ensures Parse(text) == []
  {
    assert !IsSpace('-');
    ParseNoHyphen(text);
  }

  // ---------------------------------------------------------------------
  // Writing a deck in the input format, and reading it back

  /** A card's line in the documented `word - meaning - translation` format. */
  function FormatLine(c: Card): string {
    c.word + " - " + c.meaning + " - " + c.translation
  }

  /** A deck's text: one formatted line per card. */
  function FormatDeck(cards: seq<Card>): string {
    if |cards| == 0 then ""
    else if |cards| == 1 then FormatLine(cards[0])
    else FormatLine(cards[0]) + "\n" + FormatDeck(cards[1..])
  }

  /** A card that survives being written out and parsed back: its fields
      are what the parser can produce and hold no line break. */
  predicate Writable(c: Card) {
    IsParsedCard(c) && '\n' !in c.word && '\n' !in c.meaning && '\n' !in c.translation
  }

  /** A line whose three hyphen-free segments are `x`, `y` and `z` yields
      the card of their trimmed forms. */
  lemma CardOfThree(x: string, y: string, z: string)
    requires '-' !in x && '-' !in y && '-' !in z
    ensures CardOf(x + "-" + y + "-" + z) == Some(Card(Trim(x), Trim(y), Trim(z)))
  {
    SplitThree(x, y, z, '-');
  }

  /** A trimmed field padded by the single spaces of the format trims
      back to itself. */
  lemma TrimPadded(f: string)
    requires IsTrimmed(f)
    ensures Trim(f + " ") == f && Trim(" " + f + " ") == f && Trim(" " + f) == f
  {
    assert AllSpace(" ") && AllSpace("");
    TrimUnique("", f, " ");
    assert "" + f + " " == f + " ";
    TrimUnique(" ", f, " ");
    TrimUnique(" ", f, "");
    assert " " + f + "" == " " + f;
  }

  /** The segments of a formatted line are the padded fields. */
  lemma FormatLineSegments(c: Card)
    requires Writable(c)
    ensures FormatLine(c) == (c.word + " ") + "-" + (" " + c.meaning + " ") + "-" + (" " + c.translation)
    ensures '-' !in c.word + " " && '-' !in " " + c.meaning + " " && '-' !in " " + c.translation
    ensures '\n' !in FormatLine(c)
  {
  }

  /** Formatting a writable card and parsing the line gives the card back. */
  lemma FormatLineRoundTrip(c: Card)
    requires Writable(c)
    ensures '\n' !in FormatLine(c)
    ensures CardOf(FormatLine(c)) == Some(c)
  {
    FormatLineSegments(c);
    CardOfThree(c.word + " ", " " + c.meaning + " ", " " + c.translation);
    TrimPadded(c.word);
    TrimPadded(c.meaning);
    TrimPadded(c.translation);
  }

  /** One formatted card followed by the rest of a deck's text. */
  lemma ParseFormattedCons(c: Card, rest: string)
    requires Writable(c)
    ensures Parse(FormatLine(c)) == [c]
    ensures Parse(FormatLine(c) + "\n" + rest) == [c] + Parse(rest)
  {
    FormatLineRoundTrip(c);
    ParseOneLine(FormatLine(c));
    ParseAppend(FormatLine(c), rest);
  }

  /** A line of three fields as the parser produces them, glued by bare
      hyphens, is one card with exactly those fields, empty ones included. */
  lemma ParseBareLine(x: string, y: string, z: string)
    requires IsField(x) && IsField(y) && IsField(z)
    requires '\n' !in x && '\n' !in y && '\n' !in z
    ensures Parse(x + "-" + y + "-" + z) == [Card(x, y, z)]
  {
    var line := x + "-" + y + "-" + z;
    CardOfThree(x, y, z);
    TrimTrimmed(x);
    TrimTrimmed(y);
    TrimTrimmed(z);
    NoNewline(x, y, z);
    ParseOneLine(line);
  }

  /** Fields without line breaks make a line without line breaks. */
  lemma NoNewline(x: string, y: string, z: string)
    requires '\n' !in x && '\n' !in y && '\n' !in z
    ensures '\n' !in x + "-" + y + "-" + z
  {
  }

  /** Three lines glued by line breaks are the first glued to the other two. */
  lemma GlueLines(a: string, b: string, c: string)
    ensures a + "\n" + b + "\n" + c == a + "\n" + (b + "\n" + c)
  {
  }

  /** A line without exactly two hyphens between two formatted cards
      costs only itself: the cards on either side are still read. */
  lemma ParseSkipsMalformed(c1: Card, bad: string, c2: Card)
    requires Writable(c1) && Writable(c2)
    requires '\n' !in bad && Count(bad, '-') != 2
    ensures Parse(FormatLine(c1) + "\n" + bad + "\n" + FormatLine(c2)) == [c1, c2]
  {
    var tail := bad + "\n" + FormatLine(c2);
    GlueLines(FormatLine(c1), bad, FormatLine(c2));
    assert Parse(tail) == [c2] by {
      ParseAppend(bad, FormatLine(c2));
      ParseOneLine(bad);
      ParseFormattedCons(c2, "");
    }
    ParseFormattedCons(c1, tail);
  }

  /** Parsing is a left inverse of formatting: a deck of writable cards,
      written one per line, parses back to the same deck in the same order. */
  lemma {:induction false} FormatDeckRoundTrip(cards: seq<Card>)
    requires forall i :: 0 <= i < |cards| ==> Writable(cards[i])
    ensures Parse(FormatDeck(cards)) == cards
    decreases |cards|
  {
    if |cards| == 0 {
      ParseBlank(FormatDeck(cards));
    } else if |cards| == 1 {
      ParseFormattedCons(cards[0], "");
    } else {
      FormatDeckRoundTrip(cards[1..]);
      ParseFormattedDeckCons(cards);
    }
  }

  /** The inductive step of the round trip: a first writable card in front
      of a tail that round-trips. */
  lemma ParseFormattedDeckCons(cards: seq<Card>)
    requires |cards| > 1 && Writable(cards[0])
    requires Parse(FormatDeck(cards[1..])) == cards[1..]
    ensures Parse(FormatDeck(cards)) == cards
  {
    var rest := FormatDeck(cards[1..]);
    assert FormatDeck(cards) == FormatLine(cards[0]) + "\n" + rest;
    ParseFormattedCons(cards[0], rest);
    HeadTail(cards);
  }
}
