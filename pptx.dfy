/** Extraction of text and image information from a PowerPoint deck: pick the slide
    entries of the archive, order them by slide number, and for each slide write a
    header, its text runs and, when it has images, an image note. */
module Pptx {
  import opened Text
  import opened Results
  import opened PptxXml

  /** An archive entry: its name and the outcome of parsing its XML. */
  datatype Entry = Entry(name: string, xml: Outcome<XmlValue>)

  /** A slide entry with the number its name carries. */
  datatype Slide = Slide(number: nat, entry: Entry)

  const ErrorPrefix := "Failed to extract content from PowerPoint file: "
  const SlidePath := "ppt/slides/slide"

  // ---------------------------------------------------------------------------
  // Slide entry names
  // ---------------------------------------------------------------------------

  /** `s` starts with one or more digits followed by `.xml`, as `[0-9]+\.xml` matches. */
  predicate DigitsThenXml(s: string) {
    var d := LeadingDigits(s);
    d >= 1 && d + 4 <= |s| && s[d..d + 4] == ".xml"
  }

  /** `/ppt\/slides\/slide[0-9]+\.xml/` matches somewhere in `name` (no anchors). */
  predicate IsSlideEntryName(name: string)
    decreases |name|
  {
    || (|name| >= 16 && name[..16] == SlidePath && DigitsThenXml(name[16..]))
    || (|name| > 0 && IsSlideEntryName(name[1..]))
  }

  /** `/slide([0-9]+)\.xml/` matches at the start of `s`. */
  predicate SlideNumberAt(s: string) {
    |s| >= 5 && s[..5] == "slide" && DigitsThenXml(s[5..])
  }

  /** `parseInt` of the group captured by the leftmost match of `/slide([0-9]+)\.xml/`. */
  function SlideNumber(name: string): Option<nat>
    decreases |name|
  {
    if SlideNumberAt(name) then
      var digits := name[5..];
      Some(DigitsValue(digits[..LeadingDigits(digits)]))
    else if name == [] then None
    else SlideNumber(name[1..])
  }

  lemma {:induction false} SlideNumberFoundAt(name: string, q: nat)
    requires q <= |name| && SlideNumberAt(name[q..])
    ensures SlideNumber(name).Some?
    decreases q
  {
    if q > 0 && !SlideNumberAt(name) {
      assert name[1..][q - 1..] == name[q..];
      SlideNumberFoundAt(name[1..], q - 1);
    }
  }

  /** Every entry the filter keeps has a slide number, so the sort's `match(...)[1]`
      never reads from a failed match. */
  lemma {:induction false} SlideEntryHasNumber(name: string)
    requires IsSlideEntryName(name)
    ensures SlideNumber(name).Some?
    decreases |name|
  {
    if |name| >= 16 && name[..16] == SlidePath && DigitsThenXml(name[16..]) {
      assert name[11..][..5] == name[11..16] == "slide";
      assert name[11..][5..] == name[16..];
      SlideNumberFoundAt(name, 11);
    } else {
      SlideEntryHasNumber(name[1..]);
      if !SlideNumberAt(name) {
        assert SlideNumber(name) == SlideNumber(name[1..]);
      }
    }
  }

  /** The conventional name of slide `n`. */
  function StandardSlideName(n: nat): string {
    SlidePath + NatToString(n) + ".xml"
  }

  lemma StandardNameDigits(n: nat, rest: string)
    ensures DigitsThenXml(NatToString(n) + ".xml" + rest)
    ensures var s := NatToString(n) + ".xml" + rest;
      DigitsValue(s[..LeadingDigits(s)]) == n
  {
    var s := NatToString(n) + ".xml" + rest;
    LeadingDigitsOfNumber(n, ".xml" + rest);
    assert s == NatToString(n) + (".xml" + rest);
    assert s[..|NatToString(n)|] == NatToString(n);
    DigitsValueOfNatToString(n);
  }

  /** The conventional name is kept by the filter, whatever follows it (the pattern is
      not anchored), and its number is read back. */
  lemma StandardSlideNameMatches(n: nat, rest: string)
    ensures IsSlideEntryName(StandardSlideName(n) + rest)
    ensures SlideNumber(StandardSlideName(n) + rest) == Some(n)
  {
    var tail := NatToString(n) + ".xml" + rest;
    StandardNameDigits(n, rest);
    assert StandardSlideName(n) + rest == SlidePath + tail;
    SlidePathEntry(StandardSlideName(n) + rest, tail);
  }

  /** A name made of the slide path and digits followed by `.xml` is kept by the
      filter, and its number is read from those digits. */
  lemma SlidePathEntry(name: string, tail: string)
    requires name == SlidePath + tail && DigitsThenXml(tail)
    ensures IsSlideEntryName(name)
    ensures SlideNumber(name) == Some(DigitsValue(tail[..LeadingDigits(tail)]))
  {
    AppendSlice(SlidePath, tail, 0, 16);
    AppendSlice(SlidePath, tail, 16, |name|);
    SlidePathKept(name, tail);
    SlidePathNumber(name, tail);
  }

  lemma SlidePathKept(name: string, tail: string)
    requires |name| >= 16 && name[..16] == SlidePath && name[16..] == tail && DigitsThenXml(tail)
    ensures IsSlideEntryName(name)
  {
  }

  lemma SlidePathNumber(name: string, tail: string)
    requires |name| >= 16 && name[..16] == SlidePath && name[16..] == tail && DigitsThenXml(tail)
    ensures SlideNumber(name) == Some(DigitsValue(tail[..LeadingDigits(tail)]))
  {
    NoEarlierSlideWord(name);
    SlideNumberSkip(name, 11);
    var w := name[11..];
    assert w[..5] == name[11..16] == SlidePath[11..16];
    DropSlice(name, 11, 5, |w|);
    SlideNumberAtStart(w, tail);
  }

  lemma SlideNumberAtStart(w: string, tail: string)
    requires |w| >= 5 && w[..5] == "slide" && w[5..] == tail && DigitsThenXml(tail)
    ensures SlideNumber(w) == Some(DigitsValue(tail[..LeadingDigits(tail)]))
  {
  }

  /** Inside `ppt/slides/` the word `slide` is never followed by digits. */
  lemma NoEarlierSlideWord(name: string)
    requires |name| >= 16 && name[..16] == SlidePath
    ensures forall p: nat :: p < 11 ==> !SlideNumberAt(name[p..])
  {
    forall p: nat | p < 11
      ensures !SlideNumberAt(name[p..])
    {
      assert name[p] == SlidePath[p] && name[p + 1] == SlidePath[p + 1];
      if p == 4 {
        assert name[p..][5..][0] == name[9] == 's';
      } else {
        assert name[p] != 's' || name[p + 1] != 'l';
        assert name[p..][0] == name[p] && name[p..][1] == name[p + 1];
      }
    }
  }

  /** Positions before the first match do not change what is read. */
  lemma {:induction false} SlideNumberSkip(name: string, q: nat)
    requires q <= |name|
    requires forall p: nat :: p < q ==> !SlideNumberAt(name[p..])
    ensures SlideNumber(name) == SlideNumber(name[q..])
    decreases q
  {
    if q > 0 {
      assert name[0..] == name;
      forall p: nat | p < q - 1
        ensures !SlideNumberAt(name[1..][p..])
      {
        assert name[1..][p..] == name[p + 1..];
      }
      assert name[1..][q - 1..] == name[q..];
      SlideNumberSkip(name[1..], q - 1);
    }
  }

  // ---------------------------------------------------------------------------
  // Picking and ordering the slides
  // ---------------------------------------------------------------------------

  /** The entries the filter keeps, in archive order, each with its number. */
  function SlideEntries(entries: seq<Entry>): (slides: seq<Slide>)
    ensures |slides| <= |entries|
    ensures forall i :: 0 <= i < |slides| ==>
      IsSlideEntryName(slides[i].entry.name) && SlideNumber(slides[i].entry.name) == Some(slides[i].number)
  {
    if entries == [] then []
    else
      var rest := SlideEntries(entries[1..]);
      var e := entries[0];
      if IsSlideEntryName(e.name) then
        SlideEntryHasNumber(e.name);
        [Slide(SlideNumber(e.name).value, e)] + rest
      else rest
  }

  /** Exactly the entries whose name matches are kept, in archive order. */
  lemma {:induction false} SlideEntriesKeepsMatching(entries: seq<Entry>)
    ensures Entries(SlideEntries(entries)) == MatchingEntries(entries)
  {
    if entries != [] {
      SlideEntriesKeepsMatching(entries[1..]);
      var e := entries[0];
      if IsSlideEntryName(e.name) {
        SlideEntryHasNumber(e.name);
        var head := Slide(SlideNumber(e.name).value, e);
        assert ([head] + SlideEntries(entries[1..]))[1..] == SlideEntries(entries[1..]);
      }
    }
  }

  function Entries(slides: seq<Slide>): seq<Entry> {
    if slides == [] then [] else [slides[0].entry] + Entries(slides[1..])
  }

  /** The archive filtered by the entry-name pattern. */
  function MatchingEntries(entries: seq<Entry>): seq<Entry> {
    if entries == [] then []
    else (if IsSlideEntryName(entries[0].name) then [entries[0]] else []) + MatchingEntries(entries[1..])
  }

  predicate SortedByNumber(slides: seq<Slide>) {
    forall i, j :: 0 <= i < j < |slides| ==> slides[i].number <= slides[j].number
  }

  /** Places `x` before the first slide whose number is not smaller. */
  function Insert(x: Slide, slides: seq<Slide>): (r: seq<Slide>)
    ensures multiset(r) == multiset(slides) + multiset{x}
    ensures |r| == |slides| + 1
    ensures r[0] == x || (slides != [] && r[0] == slides[0])
  {
    if slides == [] || x.number <= slides[0].number then [x] + slides
    else
      assert slides == [slides[0]] + slides[1..];
      [slides[0]] + Insert(x, slides[1..])
  }

  /** The stable sort by slide number with the comparator `numA - numB`. */
  function SortSlides(slides: seq<Slide>): (r: seq<Slide>)
    ensures multiset(r) == multiset(slides)
    ensures |r| == |slides|
  {
    if slides == [] then []
    else
      assert slides == [slides[0]] + slides[1..];
      Insert(slides[0], SortSlides(slides[1..]))
  }

  lemma {:induction false} InsertSorted(x: Slide, slides: seq<Slide>)
    requires SortedByNumber(slides)
    ensures SortedByNumber(Insert(x, slides))
  {
    if slides != [] && x.number > slides[0].number {
      var tail := slides[1..];
      InsertSorted(x, tail);
      var r := Insert(x, tail);
      assert slides[0].number <= r[0].number;
      assert forall k :: 0 <= k < |r| ==> r[0].number <= r[k].number;
      assert Insert(x, slides) == [slides[0]] + r;
    }
  }

  /** The slides with number `n`, in order. */
  function WithNumber(slides: seq<Slide>, n: nat): seq<Slide> {
    if slides == [] then []
    else (if slides[0].number == n then [slides[0]] else []) + WithNumber(slides[1..], n)
  }

  lemma {:induction false} InsertWithNumber(x: Slide, slides: seq<Slide>, n: nat)
    ensures WithNumber(Insert(x, slides), n) ==
      if x.number == n then [x] + WithNumber(slides, n) else WithNumber(slides, n)
  {
    if slides != [] && x.number > slides[0].number {
      assert ([slides[0]] + Insert(x, slides[1..]))[1..] == Insert(x, slides[1..]);
      InsertWithNumber(x, slides[1..], n);
    } else {
      assert ([x] + slides)[1..] == slides;
    }
  }

  /** The slides come out in ascending number, they are the slides that went in, and
      slides with the same number keep their archive order. */
  lemma {:induction false} SortSlidesCorrect(slides: seq<Slide>)
    ensures SortedByNumber(SortSlides(slides))
    ensures multiset(SortSlides(slides)) == multiset(slides)
    ensures forall n: nat :: WithNumber(SortSlides(slides), n) == WithNumber(slides, n)
  {
    SortSlidesSorted(slides);
    forall n: nat
      ensures WithNumber(SortSlides(slides), n) == WithNumber(slides, n)
    {
      SortSlidesStable(slides, n);
    }
  }

  lemma {:induction false} SortSlidesSorted(slides: seq<Slide>)
    ensures SortedByNumber(SortSlides(slides))
  {
    if slides != [] {
      SortSlidesSorted(slides[1..]);
      InsertSorted(slides[0], SortSlides(slides[1..]));
    }
  }

  lemma {:induction false} SortSlidesStable(slides: seq<Slide>, n: nat)
    ensures WithNumber(SortSlides(slides), n) == WithNumber(slides, n)
  {
    if slides != [] {
      SortSlidesStable(slides[1..], n);
      InsertKeepsOrder(slides[0], slides[1..], SortSlides(slides[1..]), n);
      assert slides == [slides[0]] + slides[1..];
    }
  }

  /** Inserting `x` into a list with the same slides of number `n` as `rest` gives
      the slides of number `n` of `[x] + rest`. */
  lemma InsertKeepsOrder(x: Slide, rest: seq<Slide>, sorted: seq<Slide>, n: nat)
    requires WithNumber(sorted, n) == WithNumber(rest, n)
    ensures WithNumber(Insert(x, sorted), n) == WithNumber([x] + rest, n)
  {
    InsertWithNumber(x, sorted, n);
    assert ([x] + rest)[1..] == rest;
  }

  /** Slide 10 comes after slide 2: numbers are compared as numbers, not as text. */
  lemma NumericOrder(a: Entry, b: Entry, c: Entry)
    ensures var s := SortSlides([Slide(10, a), Slide(2, b), Slide(1, c)]);
      s == [Slide(1, c), Slide(2, b), Slide(10, a)]
  {
    var s := [Slide(10, a), Slide(2, b), Slide(1, c)];
    assert s[1..][1..] == [Slide(1, c)];
    assert SortSlides([Slide(1, c)]) == [Slide(1, c)];
    assert SortSlides(s[1..]) == [Slide(1, c), Slide(2, b)];
    assert Insert(Slide(10, a), [Slide(2, b)]) == [Slide(2, b), Slide(10, a)];
  }

  // ---------------------------------------------------------------------------
  // What each slide contributes
  // ---------------------------------------------------------------------------

  /** A slide's text runs and the number of its image references. */
  datatype SlideContent = SlideContent(runs: seq<string>, images: nat)

  /** Parsing and walking one slide, or the message of the error it throws. */
  function ReadSlide(e: Entry): Outcome<SlideContent> {
    match e.xml
    case Fail(m) => Fail(m)
    case Ok(doc) =>
      match TextRuns(doc)
      case None => Fail(NotAnArrayMessage)
      case Some(runs) => Ok(SlideContent(runs, |ImageRefs(doc)|))
  }

  /** `Slide k:` with `k` the slide's 1-based position in the sorted order. */
  function SlideHeader(pos: nat): string {
    "Slide " + NatToString(pos + 1) + ":\n"
  }

  function ImageNote(images: nat): string {
    "\n[This slide contains " + NatToString(images) + " image(s)]\n"
  }

  function SlideDescription(pos: nat, images: nat): string {
    "Slide " + NatToString(pos + 1) + ": Contains " + NatToString(images) + " image(s)"
  }

  /** The text written for the slide at position `pos`. */
  function SlideBlock(pos: nat, c: SlideContent): string {
    SlideHeader(pos) + Join(c.runs, "\n") + (if c.images > 0 then ImageNote(c.images) else "") + "\n\n"
  }

  /** The result after one more slide, at position `pos`, with content `c`. */
  function AddSlide(acc: ExtractionResult, pos: nat, c: SlideContent): ExtractionResult {
    ExtractionResult(
      acc.text + SlideBlock(pos, c),
      acc.imageCount + c.images,
      acc.imageDescriptions + (if c.images > 0 then [SlideDescription(pos, c.images)] else []))
  }

  /** The result after slides whose reads gave `contents`, in order, or the first slide's error. */
  function Deck(contents: seq<Outcome<SlideContent>>): Outcome<ExtractionResult>
    decreases |contents|
  {
    if contents == [] then Ok(EmptyResult)
    else
      var pos := |contents| - 1;
      match Deck(contents[..pos])
      case Fail(m) => Fail(m)
      case Ok(acc) =>
        match contents[pos]
        case Fail(m) => Fail(m)
        case Ok(c) => Ok(AddSlide(acc, pos, c))
  }

  /** How each slide reads, in order. */
  function SlideReads(slides: seq<Slide>): (contents: seq<Outcome<SlideContent>>)
    ensures |contents| == |slides|
    ensures forall i :: 0 <= i < |slides| ==> contents[i] == ReadSlide(slides[i].entry)
  {
    seq(|slides|, i requires 0 <= i < |slides| => ReadSlide(slides[i].entry))
  }

  /** What `extractFromPPTX` resolves to, or the message it rejects with. */
  function PptxResult(archive: Outcome<seq<Entry>>): Outcome<ExtractionResult> {
    match archive
    case Fail(m) => Fail(ErrorPrefix + m)
    case Ok(entries) =>
      match Deck(SlideReads(SortSlides(SlideEntries(entries))))
      case Fail(m) => Fail(ErrorPrefix + m)
      case Ok(r) => Ok(r)
  }

  /** `extractFromPPTX`: the archive is the opened zip's entries (or the error opening
      it), each entry carrying the outcome of parsing its XML. */
  method ExtractFromPptx(archive: Outcome<seq<Entry>>) returns (r: Outcome<ExtractionResult>)
    ensures r == PptxResult(archive)
  {
    if archive.Fail? {
      return Fail(ErrorPrefix + archive.message);
    }
    var slides := SortSlides(SlideEntries(archive.value));
    var deck := ProcessSlides(SlideReads(slides));
    if deck.Fail? {
      return Fail(ErrorPrefix + deck.message);
    }
    return deck;
  }

  /** The loop over the sorted slides, given what parsing and walking each one gives. */
  method ProcessSlides(contents: seq<Outcome<SlideContent>>) returns (r: Outcome<ExtractionResult>)
    ensures r == Deck(contents)
  {
    var text := "";
    var total: nat := 0;
    var descriptions: seq<string> := [];
    var i := 0;
    while i < |contents|
      invariant i <= |contents|
      invariant ReadSoFar(contents, i, ExtractionResult(text, total, descriptions))
    {
      var read := contents[i];
      if read.Fail? {
        DeckFailsAt(contents, i);
        return Fail(read.message);
      }
      ghost var before := ExtractionResult(text, total, descriptions);
      text, total, descriptions := AddSlideText(i, read.value, text, total, descriptions);
      ReadOneMore(contents, i, before);
      i := i + 1;
    }
    assert contents[..i] == contents;
    return Ok(ExtractionResult(text, total, descriptions));
  }

  /** The loop body for one readable slide: its block is appended to the text,
      its images to the total, and its description, if any, to the list. */
  method AddSlideText(i: nat, c: SlideContent, text: string, total: nat, descriptions: seq<string>)
    returns (text': string, total': nat, descriptions': seq<string>)
    ensures ExtractionResult(text', total', descriptions') == AddSlide(ExtractionResult(text, total, descriptions), i, c)
  {
    var block := SlideHeader(i) + Join(c.runs, "\n");
    total' := total + c.images;
    descriptions' := descriptions;
    if c.images > 0 {
      descriptions' := descriptions' + [SlideDescription(i, c.images)];
      block := block + ImageNote(c.images);
    }
    block := block + "\n\n";
    assert block == SlideBlock(i, c);
    text' := text + block;
  }

  // ---------------------------------------------------------------------------
  // Properties of the deck
  // ---------------------------------------------------------------------------

  /** The first `i` slides have been read, giving `acc`. */
  predicate ReadSoFar(contents: seq<Outcome<SlideContent>>, i: nat, acc: ExtractionResult)
    requires i <= |contents|
  {
    Deck(contents[..i]) == Ok(acc)
  }

  lemma ReadOneMore(contents: seq<Outcome<SlideContent>>, i: nat, acc: ExtractionResult)
    requires i < |contents| && ReadSoFar(contents, i, acc) && contents[i].Ok?
    ensures ReadSoFar(contents, i + 1, AddSlide(acc, i, contents[i].value))
  {
    DeckStep(contents, i);
  }

  lemma DeckStep(contents: seq<Outcome<SlideContent>>, i: nat)
    requires i < |contents| && Deck(contents[..i]).Ok? && contents[i].Ok?
    ensures Deck(contents[..i + 1]) == Ok(AddSlide(Deck(contents[..i]).value, i, contents[i].value))
  {
    assert contents[..i + 1][..i] == contents[..i];
  }

  /** The deck succeeds exactly when every slide can be read. */
  lemma {:induction false} DeckOkIffReadable(contents: seq<Outcome<SlideContent>>)
    ensures Deck(contents).Ok? <==> forall j :: 0 <= j < |contents| ==> contents[j].Ok?
    decreases |contents|
  {
    if contents != [] {
      var pos := |contents| - 1;
      DeckOkIffReadable(contents[..pos]);
      DeckOkStep(contents);
      assert forall j :: 0 <= j < pos ==> contents[..pos][j] == contents[j];
    }
  }

  /** One more slide: the deck is read when the slides before it are and it is. */
  lemma DeckOkStep(contents: seq<Outcome<SlideContent>>)
    requires contents != []
    ensures var pos := |contents| - 1;
      Deck(contents).Ok? <==> Deck(contents[..pos]).Ok? && contents[pos].Ok?
  {
  }

  /** A slide that cannot be read, after a readable prefix, decides the error. */
  lemma {:induction false} DeckFailsAt(contents: seq<Outcome<SlideContent>>, i: nat)
    requires i < |contents|
    requires Deck(contents[..i]).Ok? && contents[i].Fail?
    ensures Deck(contents) == Fail(contents[i].message)
    decreases |contents|
  {
    var pos := |contents| - 1;
    if i < pos {
      assert contents[..pos][..i] == contents[..i];
      DeckFailsAt(contents[..pos], i);
    } else {
      assert contents[..i] == contents[..pos];
    }
  }

  /** The error is that of the first slide that cannot be read. */
  lemma FirstUnreadableSlideDecides(slides: seq<Slide>, i: nat)
    requires i < |slides| && ReadSlide(slides[i].entry).Fail?
    requires forall j :: 0 <= j < i ==> ReadSlide(slides[j].entry).Ok?
    ensures Deck(SlideReads(slides)) == Fail(ReadSlide(slides[i].entry).message)
  {
    var contents := SlideReads(slides);
    DeckOkIffReadable(contents[..i]);
    DeckFailsAt(contents, i);
  }

  /** Reads the slide position and image count back from a description. */
  function ParseDescription(d: string): Option<(nat, nat)> {
    if |d| < 6 || d[..6] != "Slide " then None
    else
      var a := d[6..];
      var k := LeadingDigits(a);
      var b := a[k..];
      if k == 0 || |b| < 11 || b[..11] != ": Contains " then None
      else
        var c := b[11..];
        var m := LeadingDigits(c);
        if m == 0 || c[m..] != " image(s)" then None
        else Some((DigitsValue(a[..k]), DigitsValue(c[..m])))
  }

  lemma DescriptionRoundTrip(pos: nat, images: nat)
    ensures ParseDescription(SlideDescription(pos, images)) == Some((pos + 1, images))
  {
    var d := SlideDescription(pos, images);
    var mid := ": Contains " + NatToString(images) + " image(s)";
    DescriptionPieces(d, NatToString(pos + 1), mid);
    NumberThen(pos + 1, mid);
    MidPieces(mid, NatToString(images));
    NumberThen(images, " image(s)");
  }

  lemma DescriptionPieces(d: string, na: string, mid: string)
    requires d == "Slide " + na + mid
    ensures |d| >= 6 && d[..6] == "Slide " && d[6..] == na + mid
  {
  }

  lemma MidPieces(mid: string, ni: string)
    requires mid == ": Contains " + ni + " image(s)"
    ensures |mid| >= 11 && mid[..11] == ": Contains " && mid[11..] == ni + " image(s)"
  {
  }

  /** A rendered number followed by text that does not start with a digit is read
      back as that number, and the text after it is what followed. */
  lemma NumberThen(n: nat, rest: string)
    requires rest == [] || !IsDigit(rest[0])
    ensures var s := NatToString(n) + rest; var k := LeadingDigits(s);
      k == |NatToString(n)| && s[k..] == rest && DigitsValue(s[..k]) == n
  {
    var s := NatToString(n) + rest;
    LeadingDigitsOfNumber(n, rest);
    assert s[..|NatToString(n)|] == NatToString(n);
    DigitsValueOfNatToString(n);
  }

  /** Images counted by the descriptions. */
  function DescribedImages(descriptions: seq<string>): nat {
    if descriptions == [] then 0
    else
      var last := ParseDescription(descriptions[|descriptions| - 1]);
      DescribedImages(descriptions[..|descriptions| - 1]) + (if last.Some? then last.value.1 else 0)
  }

  /** Each description names one of the first `n` slides and a positive image count,
      and the slides named increase strictly, so none is described twice. */
  predicate DescribesSlides(ds: seq<string>, n: nat) {
    InOrder(ds, n, ParseDescription)
  }

  /** The same, for descriptions read by any `parse`. */
  predicate InOrder(ds: seq<string>, n: nat, parse: string -> Option<(nat, nat)>) {
    && (forall i :: 0 <= i < |ds| ==>
          var p := parse(ds[i]); p.Some? && 1 <= p.value.0 <= n && p.value.1 > 0)
    && (forall i, j :: 0 <= i < j < |ds| ==>
          parse(ds[i]).value.0 < parse(ds[j]).value.0)
  }

  /** The descriptions account for every image, one per slide that has images. */
  lemma {:induction false} DescriptionsAccountForImages(contents: seq<Outcome<SlideContent>>)
    requires Deck(contents).Ok?
    ensures var r := Deck(contents).value;
      |r.imageDescriptions| <= |contents| && DescribedImages(r.imageDescriptions) == r.imageCount
    decreases |contents|
  {
    if contents != [] {
      var pos := |contents| - 1;
      DescriptionsAccountForImages(contents[..pos]);
      var c := contents[pos].value;
      var ds := Deck(contents[..pos]).value.imageDescriptions;
      if c.images > 0 {
        DescriptionRoundTrip(pos, c.images);
        var ds' := ds + [SlideDescription(pos, c.images)];
        assert ds'[..|ds'| - 1] == ds;
      } else {
        assert ds + [] == ds;
      }
    }
  }

  /** The descriptions name the slides with images, in slide order. */
  lemma {:induction false} DescriptionsInSlideOrder(contents: seq<Outcome<SlideContent>>)
    requires Deck(contents).Ok?
    ensures DescribesSlides(Deck(contents).value.imageDescriptions, |contents|)
    decreases |contents|
  {
    if contents != [] {
      var pos := |contents| - 1;
      DescriptionsInSlideOrder(contents[..pos]);
      var c := contents[pos].value;
      var ds := Deck(contents[..pos]).value.imageDescriptions;
      if c.images > 0 {
        DescriptionRoundTrip(pos, c.images);
        InOrderOneMore(ds, SlideDescription(pos, c.images), pos, ParseDescription);
      } else {
        InOrderNoMore(ds, pos, ParseDescription);
      }
    }
  }

  /** A description of the slide after all described ones keeps the order. */
  lemma InOrderOneMore(ds: seq<string>, d: string, pos: nat, parse: string -> Option<(nat, nat)>)
    requires InOrder(ds, pos, parse)
    requires var p := parse(d); p.Some? && p.value.0 == pos + 1 && p.value.1 > 0
    ensures InOrder(ds + [d], pos + 1, parse)
  {
    var ds' := ds + [d];
    assert forall i :: 0 <= i < |ds| ==> ds'[i] == ds[i];
    assert ds'[|ds|] == d;
  }

  lemma InOrderNoMore(ds: seq<string>, pos: nat, parse: string -> Option<(nat, nat)>)
    requires InOrder(ds, pos, parse)
    ensures InOrder(ds + [], pos + 1, parse)
  {
    assert ds + [] == ds;
  }

  /** A deck without slides gives no text and no images. */
  lemma NoSlides(entries: seq<Entry>)
    requires forall i :: 0 <= i < |entries| ==> !IsSlideEntryName(entries[i].name)
    ensures PptxResult(Ok(entries)) == Ok(EmptyResult)
  {
    NoMatching(entries);
  }

  lemma {:induction false} NoMatching(entries: seq<Entry>)
    requires forall i :: 0 <= i < |entries| ==> !IsSlideEntryName(entries[i].name)
    ensures SlideEntries(entries) == []
  {
    if entries != [] {
      NoMatching(entries[1..]);
    }
  }

  /** Every error the extractor reports names PowerPoint. */
  lemma FailuresArePrefixed(archive: Outcome<seq<Entry>>)
    requires PptxResult(archive).Fail?
    ensures var m := PptxResult(archive).message; |m| >= |ErrorPrefix| && m[..|ErrorPrefix|] == ErrorPrefix
  {
  }

  /** The block written for a slide with two runs and two images. */
  lemma MiddleSlideBlock()
    ensures SlideBlock(1, SlideContent(["Chart", "Notes"], 2))
      == "Slide 2:\n" + "Chart\nNotes" + "\n[This slide contains 2 image(s)]\n" + "\n\n"
  {
    SecondHeader();
    TwoImagesNote();
    TwoRunsJoined();
  }

  lemma SecondHeader()
    ensures SlideHeader(1) == "Slide 2:\n"
  {
    assert NatToString(2) == "2";
  }

  lemma TwoImagesNote()
    ensures ImageNote(2) == "\n[This slide contains 2 image(s)]\n"
  {
    assert NatToString(2) == "2";
  }

  lemma TwoRunsJoined()
    ensures Join(["Chart", "Notes"], "\n") == "Chart\nNotes"
  {
  }
}
