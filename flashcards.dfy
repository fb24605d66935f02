/** `generate_flashcards`: one card per `". "`-separated segment that holds a colon,
    the term before the first colon and the definition after it, at most ten cards. */
module Flashcards {
  import opened Text

  const Separator := ". "
  const MaxCards := 10

  datatype Card = Card(term: string, definition: string)

  /** The card a segment with a colon gives: `line.split(':', 1)`, both halves
      stripped. */
  function CardOf(line: string): (c: Card)
    requires Contains(line, ":")
  {
    IndexOfFinds(line, ":");
    var k := IndexOf(line, ":");
    Card(Trim(line[..k], Python), Trim(line[k + 1..], Python))
  }

  /** The segments that give a card, in order. */
  function Qualifying(lines: seq<string>): (q: seq<string>)
    ensures forall i :: 0 <= i < |q| ==> Contains(q[i], ":")
    ensures |q| <= |lines|
  {
    if lines == [] then []
    else
      var init := Qualifying(lines[..|lines| - 1]);
      if Contains(lines[|lines| - 1], ":") then init + [lines[|lines| - 1]] else init
  }

  /** Every card, before the cap, in the order of the segments. */
  function AllCards(lines: seq<string>): (cards: seq<Card>)
    ensures |cards| == |Qualifying(lines)|
  {
    if lines == [] then []
    else
      var last := lines[|lines| - 1];
      AllCards(lines[..|lines| - 1]) + if Contains(last, ":") then [CardOf(last)] else []
  }

  function Capped(cards: seq<Card>): seq<Card> {
    if |cards| <= MaxCards then cards else cards[..MaxCards]
  }

  /** `generate_flashcards`. */
  method GenerateFlashcards(text: string) returns (cards: seq<Card>)
    ensures cards == Capped(AllCards(Split(text, Separator)))
  {
    var lines := Split(text, Separator);
    cards := CardsFromSegments(lines);
  }

  /** The loop of `generate_flashcards`, over the segments of the text. */
  method CardsFromSegments(lines: seq<string>) returns (cards: seq<Card>)
    ensures cards == Capped(AllCards(lines))
  {
    var flashcards: seq<Card> := [];
    for i := 0 to |lines|
      invariant flashcards == AllCards(lines[..i])
    {
      var line := lines[i];
      AllCardsSnoc(lines, i);
      if Contains(line, ":") {
        flashcards := flashcards + [CardOf(line)];
      }
    }
    assert lines[..|lines|] == lines;
    cards := if |flashcards| <= MaxCards then flashcards else flashcards[..MaxCards];
  }

  /** One more segment adds its card, if it has a colon, at the end. */
  lemma AllCardsSnoc(lines: seq<string>, i: nat)
    requires i < |lines|
    ensures AllCards(lines[..i + 1])
      == AllCards(lines[..i]) + if Contains(lines[i], ":") then [CardOf(lines[i])] else []
  {
    assert lines[..i + 1][..i] == lines[..i];
  }

  // ---------------------------------------------------------------------------
  // Properties
  // ---------------------------------------------------------------------------

  /** Only segments with a colon give cards, and every such segment is kept as often as it occurs. */
  lemma {:induction false} QualifyingIsFilter(lines: seq<string>)
    ensures forall i :: 0 <= i < |Qualifying(lines)| ==> Qualifying(lines)[i] in lines
    ensures forall i :: 0 <= i < |lines| && Contains(lines[i], ":") ==> lines[i] in Qualifying(lines)
    ensures multiset(Qualifying(lines)) <= multiset(lines)
    ensures forall x :: multiset(Qualifying(lines))[x] == if Contains(x, ":") then multiset(lines)[x] else 0
  {
    if lines != [] {
      var init := lines[..|lines| - 1];
      QualifyingIsFilter(init);
      assert lines == init + [lines[|lines| - 1]];
    }
  }

  /** One card per segment with a colon, up to ten. */
  lemma CardCount(lines: seq<string>)
    ensures |Capped(AllCards(lines))|
      == if |Qualifying(lines)| <= MaxCards then |Qualifying(lines)| else MaxCards
  {
  }

  /** Card `i` comes from the `i`-th segment with a colon. */
  lemma CardsInOrder(lines: seq<string>, i: nat)
    requires i < |Capped(AllCards(lines))|
    ensures i < |Qualifying(lines)| && Capped(AllCards(lines))[i] == CardOf(Qualifying(lines)[i])
  {
    var cards := AllCards(lines);
    assert Capped(cards)[i] == cards[i];
    CardsOfQualifying(lines, i);
  }

  /** The cards are those of the qualifying segments, position by position. */
  lemma {:induction false} CardsOfQualifying(lines: seq<string>, i: nat)
    requires i < |Qualifying(lines)|
    ensures AllCards(lines)[i] == CardOf(Qualifying(lines)[i])
  {
    var init := lines[..|lines| - 1];
    var last := lines[|lines| - 1];
    var cards := AllCards(init);
    var q := Qualifying(init);
    if i < |q| {
      CardsOfQualifying(init, i);
      assert Qualifying(lines)[i] == q[i];
      assert AllCards(lines)[i] == cards[i];
    } else {
      assert Contains(last, ":") && Qualifying(lines) == q + [last];
      assert AllCards(lines) == cards + [CardOf(last)];
    }
  }

  /** A text with no `". "` in it gives one card if it has a colon and none
      otherwise. */
  lemma SingleSegment(text: string)
    requires !Contains(text, Separator)
    ensures Capped(AllCards(Split(text, Separator)))
      == if Contains(text, ":") then [CardOf(text)] else []
  {
    SplitWithoutSeparator(text, Separator);
    assert [text][..0] == [];
  }

  /** `split(':', 1)` cuts a segment at its first colon: the term comes from the text
      before it, which holds no colon, and the definition from everything after it. */
  lemma CardShape(line: string)
    requires Contains(line, ":")
    ensures var k := IndexOf(line, ":");
      0 <= k < |line| && line[k] == ':' && ':' !in line[..k]
  {
    IndexOfChar(line, ':');
  }

  /** The first colon of `term + ": " + definition` is the one written after the term. */
  lemma FirstColon(term: string, definition: string)
    requires ':' !in term
    ensures Contains(term + ": " + definition, ":")
    ensures IndexOf(term + ": " + definition, ":") == |term|
  {
    var line := term + ": " + definition;
    assert line[|term|] == ':';
    IndexOfChar(line, ':');
  }

  /** A card written as `term: definition` reads back as itself, when the term has no
      colon and neither half has whitespace at its ends. */
  lemma CardRoundTrip(term: string, definition: string)
    requires ':' !in term && Trimmed(term, Python) && Trimmed(definition, Python)
    ensures Contains(term + ": " + definition, ":")
    ensures CardOf(term + ": " + definition) == Card(term, definition)
  {
    var line := term + ": " + definition;
    FirstColon(term, definition);
    assert line[..|term|] == term;
    assert line[|term| + 1..] == [' '] + definition;
    TrimFixed(term, Python);
    TrimLeadingBlank(definition, Python);
  }
}
