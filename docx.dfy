/** Extraction from a Word document: the raw text, plus one `[IMAGE k]` placeholder per
    image of the HTML rendering, appended paragraph by paragraph. */
module Docx {
  import opened Text
  import opened Results

  const ErrorMessage := "Failed to extract content from DOCX file"

  /** Paragraphs of the raw text are separated by a blank line. */
  const Break := "\n\n"

  /** Images of the HTML rendering: non-overlapping matches of `/<img/g`. */
  function ImageCount(html: string): nat {
    CountOccurrences(html, "<img")
  }

  function DocumentDescription(count: nat): string {
    "Document contains " + NatToString(count) + " image(s)"
  }

  /** `[IMAGE k]` */
  function Tag(k: nat): string {
    "[IMAGE " + NatToString(k) + "]"
  }

  /** The text appended for image `k` (1-based): a line break and its tag. */
  function Placeholder(k: nat): string {
    "\n" + Tag(k)
  }

  /** Placeholders `from`, ..., `to - 1`, in order. */
  function Placeholders(from: nat, to: nat): string {
    Marks(from, to, Placeholder)
  }

  /** Pass `i` of the loop: split into paragraphs, append placeholder `i + 1` to
      paragraph `min(length - 1, i)`, join again. */
  function InsertPlaceholder(text: string, i: nat): string {
    InsertMark(text, i, Placeholder)
  }

  /** The text after the first `count` passes. */
  function WithPlaceholders(text: string, count: nat): string {
    WithMarks(text, count, Placeholder)
  }

  /** The paragraphs of a text: the parts between blank lines. */
  function Paragraphs(text: string): (ps: seq<string>)
    ensures |ps| >= 1
  {
    Split(text, Break)
  }

  /** Paragraphs joined by blank lines. */
  function Joined(ps: seq<string>): string {
    Join(ps, Break)
  }

  // ---------------------------------------------------------------------------
  // The placement loop, for any text `mark(k)` appended for image `k`
  // ---------------------------------------------------------------------------

  /** `mark(from)`, ..., `mark(to - 1)`, in order. */
  function Marks(from: nat, to: nat, mark: nat -> string): string
    decreases to - from
  {
    if from >= to then "" else mark(from) + Marks(from + 1, to, mark)
  }

  /** One pass: split into paragraphs, append `mark(i + 1)` to paragraph
      `min(length - 1, i)`, join again. */
  function InsertMark(text: string, i: nat, mark: nat -> string): string {
    var ps := Paragraphs(text);
    var at := if |ps| - 1 < i then |ps| - 1 else i;
    Joined(ps[at := ps[at] + mark(i + 1)])
  }

  /** The text after the first `count` passes. */
  function WithMarks(text: string, count: nat, mark: nat -> string): string {
    if count == 0 then text else InsertMark(WithMarks(text, count - 1, mark), count - 1, mark)
  }

  /** What `extractFromDOCX` resolves to, given the HTML and raw-text conversions. */
  function DocxResult(html: string, raw: string): ExtractionResult {
    var count := ImageCount(html);
    if count > 0 then ExtractionResult(WithPlaceholders(raw, count), count, [DocumentDescription(count)])
    else ExtractionResult(raw, 0, [])
  }

  /** `extractFromDOCX`: `html` and `raw` are the outcomes of the two conversions, and
      `filesOk` is whether every operation on the temporary image directory succeeded
      (creating it, writing each image, emptying and removing it). Any throw inside
      the `try` is reported with the same fixed message. */
  method ExtractFromDocx(html: Outcome<string>, raw: Outcome<string>, filesOk: bool)
    returns (r: Outcome<ExtractionResult>)
    ensures html.Fail? || raw.Fail? || !filesOk ==> r == Fail(ErrorMessage)
    ensures html.Ok? && raw.Ok? && filesOk ==> r == Ok(DocxResult(html.value, raw.value))
  {
    if html.Fail? || raw.Fail? || !filesOk {
      return Fail(ErrorMessage);
    }
    var count := ImageCount(html.value);
    if count > 0 {
      var text := raw.value;
      var i := 0;
      while i < count
        invariant i <= count
        invariant text == WithPlaceholders(raw.value, i)
      {
        text := PlacePass(text, i);
        i := i + 1;
      }
      return Ok(ExtractionResult(text, count, [DocumentDescription(count)]));
    }
    return Ok(ExtractionResult(raw.value, 0, []));
  }

  /** One pass of the loop, on the paragraph array. */
  method PlacePass(text: string, i: nat) returns (r: string)
    ensures r == InsertPlaceholder(text, i)
  {
    var parts := Paragraphs(text);
    var paragraphs := new string[|parts|](j requires 0 <= j < |parts| => parts[j]);
    var at := if paragraphs.Length - 1 < i then paragraphs.Length - 1 else i;
    paragraphs[at] := paragraphs[at] + Placeholder(i + 1);
    assert paragraphs[..] == parts[at := parts[at] + Placeholder(i + 1)];
    r := Joined(paragraphs[..]);
  }

  // ---------------------------------------------------------------------------
  // Where the marks end up
  // ---------------------------------------------------------------------------

  /** What paragraph `j` of `n` carries after `count` images: paragraph `j` before the
      last gets image `j + 1`, the last paragraph gets every remaining image. */
  function Added(n: nat, count: nat, j: nat, mark: nat -> string): string
    requires j < n
  {
    if j < n - 1 then (if j < count then mark(j + 1) else "")
    else Marks(n, count + 1, mark)
  }

  /** The paragraphs with their marks, as the loop intends to place them. */
  function Placed(ps: seq<string>, count: nat, mark: nat -> string): (r: seq<string>)
    requires |ps| >= 1
    ensures |r| == |ps|
  {
    seq(|ps|, j requires 0 <= j < |ps| => ps[j] + Added(|ps|, count, j, mark))
  }

  /** No blank line inside, and no line break at the end: such a paragraph can be
      joined and split again unchanged. */
  predicate Plain(p: string) {
    !Contains(p, Break) && (p == [] || p[|p| - 1] != '\n')
  }

  /** A mark the loop can append without disturbing the paragraphs: it is plain, and
      starts with a line break followed by a plain text. */
  predicate GoodMark(m: string) {
    Plain(m) && |m| > 0 && m[0] == '\n' && Plain(m[1..])
  }

  ghost predicate GoodMarks(mark: nat -> string) {
    forall k: nat {:trigger GoodMark(mark(k))} :: GoodMark(mark(k))
  }

  lemma PlainConcat(a: string, b: string)
    requires Plain(a) && Plain(b)
    ensures Plain(a + b)
  {
    forall i: nat | i <= |a + b|
      ensures !OccursAt(a + b, Break, i)
    {
      if i + 2 <= |a| {
        assert !OccursAt(a, Break, i);
        AppendSlice(a, b, i, i + 2);
      } else if i >= |a| {
        assert !OccursAt(b, Break, i - |a|);
        if i + 2 <= |a + b| {
          AppendSlice(a, b, i, i + 2);
        }
      } else {
        assert (a + b)[i] == a[|a| - 1];
      }
    }
  }

  lemma NoNewlinePlain(s: string)
    requires '\n' !in s
    ensures Plain(s)
  {
    forall i: nat | i <= |s|
      ensures !OccursAt(s, Break, i)
    {
      assert i + 2 <= |s| ==> s[i..i + 2][0] == s[i];
    }
  }

  lemma TagHasNoNewline(k: nat)
    ensures '\n' !in Tag(k) && |Tag(k)| > 0 && Tag(k)[0] == '['
  {
    var d := NatToString(k);
    assert forall i :: 0 <= i < |d| ==> IsDigit(d[i]);
    assert '\n' !in d;
  }

  /** A line break in front of a plain text that does not start with one keeps it plain. */
  lemma NewlineThenPlain(t: string)
    requires Plain(t) && |t| > 0 && t[0] != '\n'
    ensures Plain("\n" + t)
  {
    var s := "\n" + t;
    forall i: nat | i <= |s|
      ensures !OccursAt(s, Break, i)
    {
      if i >= 1 {
        assert !OccursAt(t, Break, i - 1);
        assert i + 2 <= |s| ==> s[i..i + 2] == t[i - 1..i + 1];
      } else {
        assert |s| >= 2 ==> s[1] == t[0];
      }
    }
  }

  /** `[IMAGE k]` on a line of its own can be appended by the loop. */
  lemma PlaceholderIsGood(k: nat)
    ensures GoodMark(Placeholder(k)) && Placeholder(k)[1..] == Tag(k)
  {
    TagHasNoNewline(k);
    NoNewlinePlain(Tag(k));
    NewlineThenPlain(Tag(k));
    assert Placeholder(k)[1..] == Tag(k);
  }

  lemma PlaceholdersAreGood()
    ensures GoodMarks(Placeholder)
  {
    forall k: nat
      ensures GoodMark(Placeholder(k))
    {
      PlaceholderIsGood(k);
    }
  }

  /** A run of marks is plain, starts with its line break, and is plain without it. */
  lemma {:induction false} MarksPlain(from: nat, to: nat, mark: nat -> string)
    requires GoodMarks(mark)
    ensures Plain(Marks(from, to, mark))
    ensures Marks(from, to, mark) != [] ==>
      Marks(from, to, mark)[0] == '\n' && Plain(Marks(from, to, mark)[1..])
    decreases if from < to then to - from else 0
  {
    if from < to {
      MarksPlain(from + 1, to, mark);
      var m := mark(from);
      assert GoodMark(m);
      var rest := Marks(from + 1, to, mark);
      PlainConcat(m, rest);
      PlainConcat(m[1..], rest);
      assert (m + rest)[1..] == m[1..] + rest;
    } else {
      NoNewlinePlain("");
    }
  }

  lemma {:induction false} MarksSnoc(from: nat, to: nat, mark: nat -> string)
    requires from <= to
    ensures Marks(from, to + 1, mark) == Marks(from, to, mark) + mark(to)
    decreases if from < to then to - from else 0
  {
    if from < to {
      MarksSnoc(from + 1, to, mark);
    }
  }

  /** A plain paragraph ends exactly where the next break begins. */
  lemma PlainEndsBeforeBreak(p: string)
    requires Plain(p)
    ensures EndsBeforeSep(p, Break)
  {
    var s := p + Break;
    assert s[|p|..|p| + 2] == Break;
    forall j: nat | j < |p|
      ensures !OccursAt(s, Break, j)
    {
      if j + 2 <= |p| {
        assert !OccursAt(p, Break, j);
        assert s[j..j + 2] == p[j..j + 2];
      } else {
        assert s[j] == p[|p| - 1];
      }
    }
    IndexOfUnique(s, Break, |p|);
  }

  /** Paragraphs of a split: none holds a break, and every one but the last is plain. */
  lemma ParagraphsOfSplit(s: string)
    ensures var ps := Paragraphs(s);
      (forall j :: 0 <= j < |ps| ==> !Contains(ps[j], Break))
      && (forall j :: 0 <= j < |ps| - 1 ==> Plain(ps[j]))
  {
    var ps := Paragraphs(s);
    SplitParts(s, Break);
    forall j | 0 <= j < |ps| - 1
      ensures Plain(ps[j])
    {
      var p := ps[j];
      assert EndsBeforeSep(p, Break);
      if p != [] && p[|p| - 1] == '\n' {
        var q := p + Break;
        assert q[|p| - 1] == '\n' && q[|p|] == '\n';
        assert q[|p| - 1..|p| + 1] == Break;
        IndexOfFinds(q, Break);
        assert OccursAt(q, Break, |p| - 1);
        assert false;
      }
    }
  }

  /** Paragraphs that can be joined and split back (the conditions of `SplitJoin`). */
  predicate Rejoinable(ps: seq<string>) {
    && |ps| >= 1
    && (forall j :: 0 <= j < |ps| ==> !Contains(ps[j], Break))
    && (forall j :: 0 <= j < |ps| - 1 ==> EndsBeforeSep(ps[j], Break))
  }

  /** While images remain for the paragraphs before the last, the placed paragraphs
      can be joined and split back. */
  lemma PlacedRejoinable(ps: seq<string>, count: nat, mark: nat -> string)
    requires GoodMarks(mark)
    requires |ps| >= 1 && count <= |ps| - 1
    requires forall j :: 0 <= j < |ps| ==> !Contains(ps[j], Break)
    requires forall j :: 0 <= j < |ps| - 1 ==> Plain(ps[j])
    ensures Rejoinable(Placed(ps, count, mark))
    ensures Placed(ps, count, mark)[|ps| - 1] == ps[|ps| - 1]
  {
    var n := |ps|;
    var r := Placed(ps, count, mark);
    assert Added(n, count, n - 1, mark) == "";
    assert r[n - 1] == ps[n - 1] + "" == ps[n - 1];
    forall j | 0 <= j < n - 1
      ensures Plain(r[j])
    {
      var a := Added(n, count, j, mark);
      if j < count {
        assert GoodMark(mark(j + 1));
      } else {
        NoNewlinePlain(a);
      }
      PlainConcat(ps[j], a);
    }
    forall j | 0 <= j < n - 1
      ensures EndsBeforeSep(r[j], Break)
    {
      PlainEndsBeforeBreak(r[j]);
    }
  }

  lemma PlacedNone(ps: seq<string>, mark: nat -> string)
    requires |ps| >= 1
    ensures Placed(ps, 0, mark) == ps
  {
    var r := Placed(ps, 0, mark);
    forall j | 0 <= j < |ps|
      ensures r[j] == ps[j]
    {
      assert Added(|ps|, 0, j, mark) == "";
    }
  }

  /** One more pass, while the image still has its own paragraph. */
  lemma PlacedStep(ps: seq<string>, c: nat, mark: nat -> string)
    requires |ps| >= 1 && c < |ps| - 1
    ensures var q := Placed(ps, c, mark); q[c := q[c] + mark(c + 1)] == Placed(ps, c + 1, mark)
  {
    var n := |ps|;
    var q := Placed(ps, c, mark);
    var q' := q[c := q[c] + mark(c + 1)];
    forall j | 0 <= j < n
      ensures q'[j] == Placed(ps, c + 1, mark)[j]
    {
      if j == c {
        assert q[c] == ps[c] + "";
      } else if j == n - 1 {
        assert Added(n, c, j, mark) == "" == Added(n, c + 1, j, mark);
      }
    }
  }

  /** A paragraph without blank lines that ends with a line break is a plain paragraph
      followed by that line break. */
  lemma BeforeFinalNewline(last: string)
    requires !Contains(last, Break) && last != [] && last[|last| - 1] == '\n'
    ensures Plain(last[..|last| - 1]) && last == last[..|last| - 1] + "\n"
  {
    var h := last[..|last| - 1];
    forall j: nat | j <= |h|
      ensures !OccursAt(h, Break, j)
    {
      assert !OccursAt(last, Break, j);
      assert j + 2 <= |h| ==> h[j..j + 2] == last[j..j + 2];
    }
    assert |last| >= 2 ==> !OccursAt(last, Break, |last| - 2);
    assert last == h + "\n";
  }

  lemma NewlinesMeet(a: string, b: string)
    ensures (a + "\n") + ("\n" + b) == a + Break + b
  {
  }

  /** Two plain paragraphs around a break split into exactly those two. */
  lemma SplitTwo(a: string, b: string)
    requires Plain(a) && Plain(b)
    ensures Paragraphs(a + Break + b) == [a, b]
  {
    PlainEndsBeforeBreak(a);
    SplitFirstPart(a, b, Break);
    SplitWithoutSeparator(b, Break);
  }

  /** The last paragraph with marks appended splits in two exactly when it ends with a
      line break: the first mark then completes a blank line. */
  lemma SplitLastParagraph(last: string, from: nat, to: nat, mark: nat -> string)
    requires GoodMarks(mark)
    requires !Contains(last, Break)
    ensures var e := Marks(from, to, mark);
      if last != [] && last[|last| - 1] == '\n' && e != [] then
        Paragraphs(last + e) == [last[..|last| - 1], e[1..]]
      else Paragraphs(last + e) == [last + e]
  {
    var e := Marks(from, to, mark);
    MarksPlain(from, to, mark);
    if last != [] && last[|last| - 1] == '\n' && e != [] {
      var h := last[..|last| - 1];
      BeforeFinalNewline(last);
      assert e == "\n" + e[1..];
      NewlinesMeet(h, e[1..]);
      SplitTwo(h, e[1..]);
    } else if e == [] {
      assert last + e == last;
      SplitWithoutSeparator(last, Break);
    } else {
      assert Plain(last);
      PlainConcat(last, e);
      SplitWithoutSeparator(last + e, Break);
    }
  }

  /** A pass that falls to the last paragraph appends its mark to the text. */
  lemma AppendAtEnd(t: string, i: nat, mark: nat -> string)
    requires |Paragraphs(t)| - 1 <= i
    ensures InsertMark(t, i, mark) == t + mark(i + 1)
  {
    var q := Paragraphs(t);
    JoinExtendLast(q, mark(i + 1), Break);
    JoinSplit(t, Break);
  }

  /** After `c` passes that each fell before the last paragraph, the paragraphs are
      those of the raw text with their marks. */
  predicate KeepsParagraphs(raw: string, c: nat, mark: nat -> string) {
    Paragraphs(WithMarks(raw, c, mark)) == Placed(Paragraphs(raw), c, mark)
  }

  /** After `c` passes from the last paragraph on, the text is the paragraphs as the
      last early pass left them, followed by the marks of the later images. */
  predicate EndsWithMarks(raw: string, c: nat, mark: nat -> string) {
    var n := |Paragraphs(raw)|;
    WithMarks(raw, c, mark) == Joined(Placed(Paragraphs(raw), n - 1, mark)) + Marks(n, c + 1, mark)
  }

  lemma PassAfterPasses(text: string, d: nat, mark: nat -> string)
    ensures WithMarks(text, d + 1, mark) == InsertMark(WithMarks(text, d, mark), d, mark)
  {
  }

  /** Up to the last paragraph, image `i + 1` is appended to paragraph `i` and the
      paragraphs stay as they were. */
  lemma {:induction false} EarlyPasses(raw: string, c: nat, mark: nat -> string)
    requires GoodMarks(mark)
    requires c <= |Paragraphs(raw)| - 1
    ensures KeepsParagraphs(raw, c, mark)
  {
    if c == 0 {
      PlacedNone(Paragraphs(raw), mark);
    } else {
      EarlyPasses(raw, c - 1, mark);
      EarlyStep(raw, c - 1, mark);
    }
  }

  /** One pass while the image still has its own paragraph. */
  lemma EarlyStep(raw: string, d: nat, mark: nat -> string)
    requires GoodMarks(mark)
    requires d < |Paragraphs(raw)| - 1
    requires KeepsParagraphs(raw, d, mark)
    ensures KeepsParagraphs(raw, d + 1, mark)
  {
    PassAfterPasses(raw, d, mark);
    EarlyStepOn(raw, WithMarks(raw, d, mark), WithMarks(raw, d + 1, mark), d, mark);
  }

  /** Pass `d` while it falls before the last paragraph: on a text `t` whose paragraphs
      are those of `raw` after `d` passes, it yields the paragraphs after `d + 1`. */
  lemma EarlyStepOn(raw: string, t: string, w: string, d: nat, mark: nat -> string)
    requires GoodMarks(mark)
    requires d < |Paragraphs(raw)| - 1
    requires Paragraphs(t) == Placed(Paragraphs(raw), d, mark)
    requires w == InsertMark(t, d, mark)
    ensures Paragraphs(w) == Placed(Paragraphs(raw), d + 1, mark)
  {
    var ps := Paragraphs(raw);
    InsertEarly(t, d, Placed(ps, d, mark), mark);
    PlacedStep(ps, d, mark);
    EarlyRejoin(raw, w, d + 1, mark);
  }

  /** Before the last paragraph is reached, the placed paragraphs split back. */
  lemma EarlyRejoin(raw: string, w: string, c: nat, mark: nat -> string)
    requires GoodMarks(mark)
    requires c <= |Paragraphs(raw)| - 1
    requires w == Joined(Placed(Paragraphs(raw), c, mark))
    ensures Paragraphs(w) == Placed(Paragraphs(raw), c, mark)
  {
    var ps := Paragraphs(raw);
    ParagraphsOfSplit(raw);
    PlacedRejoinable(ps, c, mark);
    SplitJoin(Placed(ps, c, mark), Break);
  }

  /** A pass before the last paragraph appends to its own paragraph. */
  lemma InsertEarly(t: string, i: nat, q: seq<string>, mark: nat -> string)
    requires Paragraphs(t) == q && i < |q| - 1
    ensures InsertMark(t, i, mark) == Joined(q[i := q[i] + mark(i + 1)])
  {
  }

  /** Once every paragraph but the last has its image, a text made of the joined
      paragraphs followed by marks splits as `SplitLastParagraph` says. */
  lemma LateParagraphs(raw: string, w: string, to: nat, mark: nat -> string)
    requires GoodMarks(mark)
    requires |Paragraphs(raw)| <= to
    requires var ps := Paragraphs(raw);
      w == Joined(Placed(ps, |ps| - 1, mark)) + Marks(|ps|, to, mark)
    ensures var ps := Paragraphs(raw); var n := |ps|;
      Paragraphs(w) == Placed(ps, n - 1, mark)[..n - 1] + Paragraphs(ps[n - 1] + Marks(n, to, mark))
  {
    var ps := Paragraphs(raw);
    var n := |ps|;
    ParagraphsOfSplit(raw);
    PlacedRejoinable(ps, n - 1, mark);
    SplitJoinAppendAt(Placed(ps, n - 1, mark), n - 1, ps[n - 1], Marks(n, to, mark), w, Break);
  }

  /** After the paragraphs before the last have their images, the text has one
      paragraph more than the raw text exactly when the last paragraph ends with a line
      break and some image falls to it. */
  lemma LateCount(raw: string, w: string, to: nat, mark: nat -> string)
    requires GoodMarks(mark)
    requires |Paragraphs(raw)| <= to
    requires var ps := Paragraphs(raw);
      w == Joined(Placed(ps, |ps| - 1, mark)) + Marks(|ps|, to, mark)
    ensures var ps := Paragraphs(raw); var n := |ps|; var last := ps[n - 1];
      |Paragraphs(w)| == if last != [] && last[|last| - 1] == '\n' && n < to then n + 1 else n
  {
    var ps := Paragraphs(raw);
    var n := |ps|;
    LateParagraphs(raw, w, to, mark);
    ParagraphsOfSplit(raw);
    SplitLastParagraph(ps[n - 1], n, to, mark);
    assert n < to ==> Marks(n, to, mark) != [] by {
      if n < to {
        assert GoodMark(mark(n));
      }
    }
  }

  lemma AppendMark(b: string, n: nat, c: nat, mark: nat -> string)
    requires n <= c
    ensures b + Marks(n, c, mark) + mark(c) == b + Marks(n, c + 1, mark)
  {
    MarksSnoc(n, c, mark);
  }

  /** One pass after the last paragraph has been reached. */
  lemma LateStep(raw: string, c: nat, mark: nat -> string)
    requires GoodMarks(mark)
    requires |Paragraphs(raw)| <= c
    requires EndsWithMarks(raw, c - 1, mark)
    ensures EndsWithMarks(raw, c, mark)
  {
    PassAfterPasses(raw, c - 1, mark);
    LateStepOn(raw, WithMarks(raw, c - 1, mark), WithMarks(raw, c, mark), c, mark);
  }

  /** Pass `c - 1` on a text `t` made of the joined paragraphs and the marks so far: the
      mark goes at the very end. */
  lemma LateStepOn(raw: string, t: string, w: string, c: nat, mark: nat -> string)
    requires GoodMarks(mark)
    requires |Paragraphs(raw)| <= c
    requires var ps := Paragraphs(raw);
      t == Joined(Placed(ps, |ps| - 1, mark)) + Marks(|ps|, c, mark)
    requires w == InsertMark(t, c - 1, mark)
    ensures var ps := Paragraphs(raw);
      w == Joined(Placed(ps, |ps| - 1, mark)) + Marks(|ps|, c + 1, mark)
  {
    var ps := Paragraphs(raw);
    var n := |ps|;
    LateCount(raw, t, c, mark);
    AppendAtEnd(t, c - 1, mark);
    AppendMark(Joined(Placed(ps, n - 1, mark)), n, c, mark);
  }

  /** The pass that reaches the last paragraph. */
  lemma LateStart(raw: string, mark: nat -> string)
    requires GoodMarks(mark)
    ensures EndsWithMarks(raw, |Paragraphs(raw)| - 1, mark)
  {
    var ps := Paragraphs(raw);
    var n := |ps|;
    var t := WithMarks(raw, n - 1, mark);
    EarlyPasses(raw, n - 1, mark);
    JoinOfSplit(t, Placed(ps, n - 1, mark));
    EmptyRun(t, n, mark);
  }

  lemma EmptyRun(t: string, n: nat, mark: nat -> string)
    ensures t + Marks(n, n, mark) == t
  {
    assert Marks(n, n, mark) == "";
  }

  lemma JoinOfSplit(w: string, parts: seq<string>)
    requires Paragraphs(w) == parts
    ensures w == Joined(parts)
  {
    JoinSplit(w, Break);
  }

  /** From the last paragraph on, every image is appended at the very end. */
  lemma {:induction false} LatePasses(raw: string, c: nat, mark: nat -> string)
    requires GoodMarks(mark)
    requires |Paragraphs(raw)| - 1 <= c
    ensures EndsWithMarks(raw, c, mark)
    decreases c
  {
    var n := |Paragraphs(raw)|;
    if c == n - 1 {
      LateStart(raw, mark);
    } else {
      LatePasses(raw, c - 1, mark);
      LateStep(raw, c, mark);
    }
  }

  /** Past the last paragraph, the placed paragraphs are those of the last early pass
      with the remaining marks after the last one. */
  lemma PlacedLate(ps: seq<string>, count: nat, mark: nat -> string)
    requires |ps| >= 1 && |ps| - 1 <= count
    ensures var n := |ps|; var base := Placed(ps, n - 1, mark);
      Placed(ps, count, mark) == base[..n - 1] + [ps[n - 1] + Marks(n, count + 1, mark)]
      && Placed(ps, count, mark) == base[n - 1 := base[n - 1] + Marks(n, count + 1, mark)]
      && base[n - 1] == ps[n - 1]
  {
    var n := |ps|;
    var base := Placed(ps, n - 1, mark);
    var full := Placed(ps, count, mark);
    var e := Marks(n, count + 1, mark);
    assert Added(n, n - 1, n - 1, mark) == "";
    assert base[n - 1] == ps[n - 1] + "";
    forall j | 0 <= j < n
      ensures full[j] == (base[..n - 1] + [ps[n - 1] + e])[j]
    {
    }
    assert ps[n - 1] + "" == ps[n - 1];
    UpdateLast(base, ps[n - 1] + e);
  }

  lemma UpdateLast<T>(xs: seq<T>, v: T)
    requires |xs| >= 1
    ensures xs[|xs| - 1 := v] == xs[..|xs| - 1] + [v]
  {
  }

  /** Past the last paragraph, the joined paragraphs followed by the remaining marks
      are the placed paragraphs joined. */
  lemma TextLate(raw: string, w: string, count: nat, mark: nat -> string)
    requires |Paragraphs(raw)| <= count
    requires var ps := Paragraphs(raw);
      w == Joined(Placed(ps, |ps| - 1, mark)) + Marks(|ps|, count + 1, mark)
    ensures w == Joined(Placed(Paragraphs(raw), count, mark))
  {
    var ps := Paragraphs(raw);
    var n := |ps|;
    PlacedLate(ps, count, mark);
    JoinExtendLast(Placed(ps, n - 1, mark), Marks(n, count + 1, mark), Break);
  }

  /** The loop's text is the placed paragraphs joined. */
  predicate JoinsPlaced(raw: string, count: nat, mark: nat -> string) {
    WithMarks(raw, count, mark) == Joined(Placed(Paragraphs(raw), count, mark))
  }

  lemma MarkedText(raw: string, count: nat, mark: nat -> string)
    requires GoodMarks(mark)
    ensures JoinsPlaced(raw, count, mark)
  {
    var ps := Paragraphs(raw);
    if count <= |ps| - 1 {
      EarlyPasses(raw, count, mark);
      JoinOfSplit(WithMarks(raw, count, mark), Placed(ps, count, mark));
    } else {
      LatePasses(raw, count, mark);
      TextLate(raw, WithMarks(raw, count, mark), count, mark);
    }
  }

  /** Past the last paragraph, when that paragraph does not end with a line break, the
      text splits into the placed paragraphs. */
  lemma KeptLate(raw: string, w: string, count: nat, mark: nat -> string)
    requires GoodMarks(mark)
    requires |Paragraphs(raw)| <= count
    requires var ps := Paragraphs(raw); var last := ps[|ps| - 1];
      last == [] || last[|last| - 1] != '\n'
    requires var ps := Paragraphs(raw);
      w == Joined(Placed(ps, |ps| - 1, mark)) + Marks(|ps|, count + 1, mark)
    ensures Paragraphs(w) == Placed(Paragraphs(raw), count, mark)
  {
    var ps := Paragraphs(raw);
    var n := |ps|;
    LateParagraphs(raw, w, count + 1, mark);
    ParagraphsOfSplit(raw);
    SplitLastParagraph(ps[n - 1], n, count + 1, mark);
    PlacedLate(ps, count, mark);
  }

  /** The loop's paragraphs are the placed ones unless the last paragraph ends with a
      line break and an image falls to it. */
  lemma MarkedParagraphs(raw: string, count: nat, mark: nat -> string)
    requires GoodMarks(mark)
    requires var ps := Paragraphs(raw); var last := ps[|ps| - 1];
      last == [] || last[|last| - 1] != '\n' || count < |ps|
    ensures KeepsParagraphs(raw, count, mark)
  {
    if count <= |Paragraphs(raw)| - 1 {
      EarlyPasses(raw, count, mark);
    } else {
      LatePasses(raw, count, mark);
      KeptLate(raw, WithMarks(raw, count, mark), count, mark);
    }
  }

  /** The marks carried by paragraphs `j`, ..., `n - 1`, in paragraph order. */
  function AddedFrom(n: nat, count: nat, j: nat, mark: nat -> string): string
    requires j <= n
    decreases n - j
  {
    if j == n then "" else Added(n, count, j, mark) + AddedFrom(n, count, j + 1, mark)
  }

  lemma {:induction false} AddedFromRun(n: nat, count: nat, j: nat, mark: nat -> string)
    requires j < n
    ensures AddedFrom(n, count, j, mark)
      == Marks(if j < count then j + 1 else count + 1, count + 1, mark)
    decreases n - j
  {
    if j == n - 1 {
      assert AddedFrom(n, count, j, mark) == Marks(n, count + 1, mark) + "";
    } else {
      AddedFromRun(n, count, j + 1, mark);
      if j < count {
        assert Marks(j + 1, count + 1, mark) == mark(j + 1) + Marks(j + 2, count + 1, mark);
      } else {
        assert Added(n, count, j, mark) == "";
      }
    }
  }

  // ---------------------------------------------------------------------------
  // Properties of the placeholder loop
  // ---------------------------------------------------------------------------

  /** The text always comes out as intended: image `k` closes paragraph `k`, and the
      images beyond the paragraph count all close the last paragraph, in order. */
  lemma PlaceholderText(raw: string, count: nat)
    ensures WithPlaceholders(raw, count) == Joined(Placed(Paragraphs(raw), count, Placeholder))
  {
    PlaceholdersAreGood();
    MarkedText(raw, count, Placeholder);
  }

  /** The paragraphs keep their number, each gaining its placeholders, unless the last
      paragraph ends with a line break and an image falls to it. */
  lemma ParagraphsKept(raw: string, count: nat)
    requires var ps := Paragraphs(raw); var last := ps[|ps| - 1];
      last == [] || last[|last| - 1] != '\n' || count < |ps|
    ensures Paragraphs(WithPlaceholders(raw, count)) == Placed(Paragraphs(raw), count, Placeholder)
  {
    PlaceholdersAreGood();
    MarkedParagraphs(raw, count, Placeholder);
  }

  /** Otherwise the last paragraph is cut in two, so the paragraphs grow by one. */
  lemma LastParagraphSplits(raw: string, count: nat)
    requires var ps := Paragraphs(raw); var last := ps[|ps| - 1];
      last != [] && last[|last| - 1] == '\n' && count >= |ps|
    ensures |Paragraphs(WithPlaceholders(raw, count))| == |Paragraphs(raw)| + 1
  {
    PlaceholdersAreGood();
    LatePasses(raw, count, Placeholder);
    LateCount(raw, WithMarks(raw, count, Placeholder), count + 1, Placeholder);
  }

  /** Read in paragraph order, the placeholders are `[IMAGE 1]` to `[IMAGE count]`, each
      once and in increasing order. */
  lemma PlaceholdersInOrder(n: nat, count: nat)
    requires n >= 1
    ensures AddedFrom(n, count, 0, Placeholder) == Placeholders(1, count + 1)
  {
    AddedFromRun(n, count, 0, Placeholder);
  }

  /** A document with no image keeps its raw text and describes nothing. */
  lemma NoImages(html: string, raw: string)
    requires !Contains(html, "<img")
    ensures DocxResult(html, raw) == ExtractionResult(raw, 0, [])
  {
    IndexOfFinds(html, "<img");
  }
}
