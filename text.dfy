/** String operations of JavaScript and Python that the rest of the model relies on:
    substring search, `split` / `join` with a literal separator, whitespace trimming,
    ASCII lower-casing, decimal rendering of numbers and UTF-16 length. */
module Text {

  // ---------------------------------------------------------------------------
  // Substring search
  // ---------------------------------------------------------------------------

  /** `t` occurs in `s` starting at index `i`. */
  predicate OccursAt(s: string, t: string, i: nat) {
    i + |t| <= |s| && s[i..i + |t|] == t
  }

  predicate Contains(s: string, t: string) {
    exists i: nat | i <= |s| :: OccursAt(s, t, i)
  }

  /** Index of the first occurrence of `t` in `s`, or -1 (String.prototype.indexOf).
      What the index means is stated by `IndexOfFinds`. */
  function IndexOf(s: string, t: string): (r: int)
    ensures -1 <= r <= |s| && (r >= 0 ==> r + |t| <= |s|)
    decreases |s|
  {
    if |s| < |t| then -1
    else if s[..|t|] == t then 0
    else
      var r := IndexOf(s[1..], t);
      if r < 0 then -1 else r + 1
  }

  /** `IndexOf` finds the first occurrence, and finds none exactly when there is none. */
  lemma {:induction false} IndexOfFinds(s: string, t: string)
    ensures var r := IndexOf(s, t);
      r >= 0 ==> OccursAt(s, t, r) && forall j: nat :: j < r ==> !OccursAt(s, t, j)
    ensures IndexOf(s, t) < 0 <==> !Contains(s, t)
    decreases |s|
  {
    if |s| < |t| {
    } else if s[..|t|] == t {
      assert OccursAt(s, t, 0);
    } else {
      IndexOfFinds(s[1..], t);
      OccursAtTail(s, t);
      assert !OccursAt(s, t, 0);
      if Contains(s[1..], t) {
        var i: nat :| i <= |s[1..]| && OccursAt(s[1..], t, i);
        assert OccursAt(s, t, i + 1);
      }
      if Contains(s, t) {
        var i: nat :| i <= |s| && OccursAt(s, t, i);
        assert OccursAt(s[1..], t, i - 1);
      }
    }
  }

  /** An occurrence after the first character of `s` is an occurrence in `s[1..]`. */
  lemma OccursAtTail(s: string, t: string)
    requires |s| > 0
    ensures forall i: nat :: 1 <= i ==> (OccursAt(s, t, i) <==> OccursAt(s[1..], t, i - 1))
  {
    forall i: nat | 1 <= i
      ensures OccursAt(s, t, i) <==> OccursAt(s[1..], t, i - 1)
    {
      if i + |t| <= |s| {
        DropSlice(s, 1, i - 1, i - 1 + |t|);
      }
    }
  }

  lemma DropSlice<T>(s: seq<T>, k: nat, lo: nat, hi: nat)
    requires k <= |s| && lo <= hi <= |s| - k
    ensures s[k..][lo..hi] == s[k + lo..k + hi]
  {
    var x := s[k..][lo..hi];
    var y := s[k + lo..k + hi];
    forall j | 0 <= j < |x|
      ensures x[j] == y[j]
    {
    }
  }

  /** A slice of a concatenation that lies within one of its halves. */
  lemma AppendSlice<T>(a: seq<T>, b: seq<T>, lo: nat, hi: nat)
    requires lo <= hi <= |a| + |b|
    ensures hi <= |a| ==> (a + b)[lo..hi] == a[lo..hi]
    ensures |a| <= lo ==> (a + b)[lo..hi] == b[lo - |a|..hi - |a|]
  {
    if hi <= |a| {
      var x := (a + b)[lo..hi];
      forall j | 0 <= j < |x|
        ensures x[j] == a[lo..hi][j]
      {
      }
    }
    if |a| <= lo {
      var x := (a + b)[lo..hi];
      forall j | 0 <= j < |x|
        ensures x[j] == b[lo - |a|..hi - |a|][j]
      {
      }
    }
  }

  /** The first occurrence is determined by the two facts `IndexOf` promises. */
  lemma IndexOfUnique(s: string, t: string, r: nat)
    requires OccursAt(s, t, r)
    requires forall j: nat :: j < r ==> !OccursAt(s, t, j)
    ensures IndexOf(s, t) == r
  {
    IndexOfFinds(s, t);
    assert Contains(s, t);
  }

  /** A one-character string occurs exactly where that character does. */
  lemma OccursAtChar(s: string, c: char, i: nat)
    ensures OccursAt(s, [c], i) <==> i < |s| && s[i] == c
  {
    if i < |s| {
      assert s[i..i + 1] == [s[i]];
    }
  }

  /** Searching for a one-character string finds the first index of that character. */
  lemma IndexOfChar(s: string, c: char)
    ensures Contains(s, [c]) <==> c in s
    ensures c in s ==> var k := IndexOf(s, [c]);
      0 <= k < |s| && s[k] == c && c !in s[..k]
  {
    IndexOfFinds(s, [c]);
    if c in s {
      var j :| 0 <= j < |s| && s[j] == c;
      OccursAtChar(s, c, j);
    }
    if Contains(s, [c]) {
      var k := IndexOf(s, [c]);
      OccursAtChar(s, c, k);
      forall j | 0 <= j < k
        ensures s[..k][j] != c
      {
        OccursAtChar(s, c, j);
      }
    }
  }

  /** Text appended after the first occurrence does not move it. */
  lemma IndexOfPrefix(a: string, b: string, t: string)
    requires IndexOf(a, t) >= 0
    ensures IndexOf(a + b, t) == IndexOf(a, t)
  {
    IndexOfFinds(a, t);
    var r := IndexOf(a, t);
    assert (a + b)[r..r + |t|] == a[r..r + |t|];
    forall j: nat | j < r
      ensures !OccursAt(a + b, t, j)
    {
      assert !OccursAt(a, t, j);
      assert j + |t| <= |a| ==> (a + b)[j..j + |t|] == a[j..j + |t|];
    }
    IndexOfUnique(a + b, t, r);
  }

  // ---------------------------------------------------------------------------
  // split and join with a literal, non-empty separator
  // ---------------------------------------------------------------------------

  /** `s.split(sep)` in JavaScript and Python: cut at every non-overlapping occurrence
      of `sep`, scanning from the left; an input without `sep` gives one part. */
  function Split(s: string, sep: string): (parts: seq<string>)
    requires |sep| > 0
    ensures |parts| >= 1
    decreases |s|
  {
    var k := IndexOf(s, sep);
    if k < 0 then [s] else [s[..k]] + Split(s[k + |sep|..], sep)
  }

  /** A text without the separator is one part, itself. */
  lemma SplitWithoutSeparator(s: string, sep: string)
    requires |sep| > 0 && !Contains(s, sep)
    ensures Split(s, sep) == [s]
  {
    IndexOfFinds(s, sep);
  }

  /** `parts.join(sep)` (JavaScript) / `sep.join(parts)` (Python). */
  function Join(parts: seq<string>, sep: string): string
  {
    if |parts| == 0 then ""
    else if |parts| == 1 then parts[0]
    else parts[0] + sep + Join(parts[1..], sep)
  }

  /** A text is what comes before an occurrence, the occurrence, and what follows. */
  lemma CutAround(s: string, sep: string, k: nat)
    requires OccursAt(s, sep, k)
    ensures s == s[..k] + sep + s[k + |sep|..]
  {
    assert s == s[..k] + s[k..k + |sep|] + s[k + |sep|..];
  }

  /** One cut of a split: the text up to the first separator, then the split of the
      rest. */
  lemma SplitStep(s: string, sep: string)
    requires |sep| > 0 && IndexOf(s, sep) >= 0
    ensures var k := IndexOf(s, sep);
      && s == s[..k] + sep + s[k + |sep|..]
      && Split(s, sep) == [s[..k]] + Split(s[k + |sep|..], sep)
  {
    IndexOfFinds(s, sep);
    CutAround(s, sep, IndexOf(s, sep));
  }

  /** Joining the parts of a split gives back the original text. */
  lemma {:induction false} JoinSplit(s: string, sep: string)
    requires |sep| > 0
    ensures Join(Split(s, sep), sep) == s
    decreases |s|
  {
    var k := IndexOf(s, sep);
    if k >= 0 {
      SplitStep(s, sep);
      var rest := s[k + |sep|..];
      JoinSplit(rest, sep);
      JoinCons(s[..k], Split(rest, sep), sep);
    }
  }

  /** `p` ends exactly where the separator written after it begins: no occurrence of
      `sep` starts inside `p` and runs into the separator. */
  predicate EndsBeforeSep(p: string, sep: string) {
    IndexOf(p + sep, sep) == |p|
  }

  /** The text before a first occurrence holds no occurrence. */
  lemma HeadHasNoSep(s: string, sep: string, k: nat)
    requires |sep| > 0 && OccursAt(s, sep, k) && forall j: nat :: j < k ==> !OccursAt(s, sep, j)
    ensures !Contains(s[..k], sep)
  {
    var head := s[..k];
    forall j: nat | j <= |head|
      ensures !OccursAt(head, sep, j)
    {
      if j < k { assert !OccursAt(s, sep, j); }
      assert j + |sep| <= |head| ==> head[j..j + |sep|] == s[j..j + |sep|];
    }
  }

  /** The text before a first occurrence, with the separator written after it, has
      its first occurrence right at its end. */
  lemma HeadEndsBeforeSep(s: string, sep: string, k: nat)
    requires OccursAt(s, sep, k) && forall j: nat :: j < k ==> !OccursAt(s, sep, j)
    ensures IndexOf(s[..k] + sep, sep) == k
  {
    var head := s[..k];
    assert head + sep == s[..k + |sep|];
    forall j: nat | j < k
      ensures !OccursAt(head + sep, sep, j)
    {
      assert !OccursAt(s, sep, j);
      assert j + |sep| <= k + |sep| ==> (head + sep)[j..j + |sep|] == s[j..j + |sep|];
    }
    assert (head + sep)[k..k + |sep|] == sep;
    IndexOfUnique(head + sep, sep, k);
  }

  /** The text before the first separator holds none, and ends where that separator
      begins. */
  lemma HeadBeforeSep(s: string, sep: string)
    requires |sep| > 0 && IndexOf(s, sep) >= 0
    ensures var k := IndexOf(s, sep);
      !Contains(s[..k], sep) && EndsBeforeSep(s[..k], sep)
  {
    IndexOfFinds(s, sep);
    var k := IndexOf(s, sep);
    HeadHasNoSep(s, sep, k);
    HeadEndsBeforeSep(s, sep, k);
  }

  /** The parts of a split never contain the separator, and every part but the last
      ends right where the next separator begins. */
  lemma {:induction false} SplitParts(s: string, sep: string)
    requires |sep| > 0
    ensures forall i :: 0 <= i < |Split(s, sep)| ==> !Contains(Split(s, sep)[i], sep)
    ensures forall i :: 0 <= i < |Split(s, sep)| - 1 ==> EndsBeforeSep(Split(s, sep)[i], sep)
    decreases |s|
  {
    IndexOfFinds(s, sep);
    var k := IndexOf(s, sep);
    if k >= 0 {
      SplitStep(s, sep);
      HeadBeforeSep(s, sep);
      var rest := s[k + |sep|..];
      SplitParts(rest, sep);
      var parts := Split(s, sep);
      var tail := Split(rest, sep);
      assert parts == [s[..k]] + tail;
      forall i | 0 <= i < |parts|
        ensures !Contains(parts[i], sep)
      {
        if i > 0 { assert parts[i] == tail[i - 1]; }
      }
      forall i | 0 <= i < |parts| - 1
        ensures EndsBeforeSep(parts[i], sep)
      {
        if i > 0 { assert parts[i] == tail[i - 1]; }
      }
    }
  }

  /** Splitting a join gives back the parts when no part contains the separator and no
      occurrence of it straddles the end of a part. */
  lemma {:induction false} SplitJoin(parts: seq<string>, sep: string)
    requires |sep| > 0 && |parts| >= 1
    requires forall i :: 0 <= i < |parts| ==> !Contains(parts[i], sep)
    requires forall i :: 0 <= i < |parts| - 1 ==> EndsBeforeSep(parts[i], sep)
    ensures Split(Join(parts, sep), sep) == parts
    decreases |parts|
  {
    if |parts| == 1 {
      SplitWithoutSeparator(parts[0], sep);
    } else {
      var tail := parts[1..];
      forall i | 0 <= i < |tail| ensures !Contains(tail[i], sep) {
        assert tail[i] == parts[i + 1];
      }
      forall i | 0 <= i < |tail| - 1 ensures EndsBeforeSep(tail[i], sep) {
        assert tail[i] == parts[i + 1];
      }
      SplitJoin(tail, sep);
      assert [parts[0]] + tail == parts;
      JoinCons(parts[0], tail, sep);
      SplitFirstPart(parts[0], Join(tail, sep), sep);
    }
  }

  /** A part that ends before its separator is the first part of the split. */
  lemma SplitFirstPart(p: string, rest: string, sep: string)
    requires |sep| > 0 && EndsBeforeSep(p, sep)
    ensures Split(p + sep + rest, sep) == [p] + Split(rest, sep)
  {
    var s := p + sep + rest;
    IndexOfPrefix(p + sep, rest, sep);
    assert s[|p| + |sep|..] == rest;
    assert s[..|p|] == p;
  }

  lemma JoinCons(head: string, tail: seq<string>, sep: string)
    requires |tail| >= 1
    ensures Join([head] + tail, sep) == head + sep + Join(tail, sep)
  {
    assert ([head] + tail)[1..] == tail;
  }

  /** A first part that ends before its separator comes back first from the split of
      a join, whatever follows the join. */
  lemma SplitJoinCons(head: string, tail: seq<string>, e: string, sep: string)
    requires |sep| > 0 && |tail| >= 1 && EndsBeforeSep(head, sep)
    ensures Split(Join([head] + tail, sep) + e, sep) == [head] + Split(Join(tail, sep) + e, sep)
  {
    JoinCons(head, tail, sep);
    assert (head + sep + Join(tail, sep)) + e == head + sep + (Join(tail, sep) + e);
    SplitFirstPart(head, Join(tail, sep) + e, sep);
  }

  lemma ConsSlice<T>(xs: seq<T>, tail: seq<T>)
    requires |xs| >= 2
    ensures [xs[0]] + (xs[1..][..|xs| - 2] + tail) == xs[..|xs| - 1] + tail
  {
    assert [xs[0]] + xs[1..][..|xs| - 2] == xs[..|xs| - 1];
  }

  /** Text appended after a join only meets the last part: the earlier parts come back
      from the split unchanged. */
  lemma {:induction false} SplitJoinAppend(parts: seq<string>, e: string, sep: string)
    requires |sep| > 0 && |parts| >= 1
    requires forall i :: 0 <= i < |parts| - 1 ==> EndsBeforeSep(parts[i], sep)
    ensures Split(Join(parts, sep) + e, sep) == parts[..|parts| - 1] + Split(parts[|parts| - 1] + e, sep)
    decreases |parts|
  {
    if |parts| > 1 {
      var tail := parts[1..];
      forall i | 0 <= i < |tail| - 1 ensures EndsBeforeSep(tail[i], sep) {
        assert tail[i] == parts[i + 1];
      }
      SplitJoinAppend(tail, e, sep);
      assert [parts[0]] + tail == parts;
      SplitJoinCons(parts[0], tail, e, sep);
      assert tail[|tail| - 1] == parts[|parts| - 1];
      ConsSlice(parts, Split(parts[|parts| - 1] + e, sep));
    } else {
      assert Join(parts, sep) == parts[0];
      assert parts[..0] + Split(parts[0] + e, sep) == Split(parts[0] + e, sep);
    }
  }

  /** `SplitJoinAppend` for a text `w` known to be the join followed by `e`, whose
      last part is `last` at index `k`. */
  lemma SplitJoinAppendAt(parts: seq<string>, k: nat, last: string, e: string, w: string, sep: string)
    requires |sep| > 0 && |parts| == k + 1 && parts[k] == last
    requires forall i :: 0 <= i < |parts| - 1 ==> EndsBeforeSep(parts[i], sep)
    requires w == Join(parts, sep) + e
    ensures Split(w, sep) == parts[..k] + Split(last + e, sep)
  {
    SplitJoinAppend(parts, e, sep);
  }

  /** Text appended to a string only meets the last part of its split. */
  lemma SplitExtend(s: string, x: string, sep: string)
    requires |sep| > 0
    ensures var parts := Split(s, sep);
      Split(s + x, sep) == parts[..|parts| - 1] + Split(parts[|parts| - 1] + x, sep)
  {
    SplitParts(s, sep);
    JoinSplit(s, sep);
    SplitJoinAppend(Split(s, sep), x, sep);
  }

  /** After a text whose split ends with an empty part, appended text is split on its
      own. */
  lemma SplitAfterSeparator(s: string, parts: seq<string>, x: string, sep: string)
    requires |sep| > 0 && Split(s, sep) == parts + [""]
    ensures Split(s + x, sep) == parts + Split(x, sep)
  {
    SplitExtend(s, x, sep);
    assert (parts + [""])[..|parts|] == parts;
    assert "" + x == x;
  }

  /** Extending the last part extends the join. */
  lemma {:induction false} JoinExtendLast(parts: seq<string>, x: string, sep: string)
    requires |parts| >= 1
    ensures Join(parts[|parts| - 1 := parts[|parts| - 1] + x], sep) == Join(parts, sep) + x
    decreases |parts|
  {
    if |parts| > 1 {
      var parts' := parts[|parts| - 1 := parts[|parts| - 1] + x];
      assert parts'[1..] == parts[1..][|parts| - 2 := parts[1..][|parts| - 2] + x];
      JoinExtendLast(parts[1..], x, sep);
    }
  }

  /** Non-overlapping occurrences of `t`, counted from the left, as `s.match(/t/g).length`
      counts them (0 when there is none). */
  function CountOccurrences(s: string, t: string): nat
    requires |t| > 0
    decreases |s|
  {
    var k := IndexOf(s, t);
    if k < 0 then 0 else 1 + CountOccurrences(s[k + |t|..], t)
  }

  /** Each occurrence cuts the text once more. */
  lemma {:induction false} CountIsCuts(s: string, t: string)
    requires |t| > 0
    ensures CountOccurrences(s, t) == |Split(s, t)| - 1
    decreases |s|
  {
    var k := IndexOf(s, t);
    if k >= 0 { CountIsCuts(s[k + |t|..], t); }
  }

  /** Concatenation of a sequence of strings. */
  function Concat(ss: seq<string>): string
  {
    if ss == [] then "" else ss[0] + Concat(ss[1..])
  }

  lemma {:induction false} ConcatAppend(ss: seq<string>, s: string)
    ensures Concat(ss + [s]) == Concat(ss) + s
  {
    if ss != [] {
      assert (ss + [s])[1..] == ss[1..] + [s];
      ConcatAppend(ss[1..], s);
    } else {
      assert [s][1..] == [];
    }
  }

  // ---------------------------------------------------------------------------
  // Whitespace and trimming
  // ---------------------------------------------------------------------------

  /** Whose notion of whitespace: `String.prototype.trim` or Python's `str.strip()`. */
  datatype Flavor = JavaScript | Python

  predicate IsSpace(c: char, flavor: Flavor) {
    || c == ' ' || c == '\t' || c == '\n' || c == '\r' || c == '\U{000B}' || c == '\U{000C}'
    || c == '\U{00A0}' || c == '\U{1680}' || ('\U{2000}' <= c <= '\U{200A}')
    || c == '\U{2028}' || c == '\U{2029}' || c == '\U{202F}' || c == '\U{205F}' || c == '\U{3000}'
    || (flavor == JavaScript && c == '\U{FEFF}')
    || (flavor == Python && (('\U{001C}' <= c <= '\U{001F}') || c == '\U{0085}'))
  }

  function TrimStart(s: string, flavor: Flavor): (r: string)
    ensures |r| <= |s| && r == s[|s| - |r|..]
    ensures r == [] || !IsSpace(r[0], flavor)
    ensures forall i :: 0 <= i < |s| - |r| ==> IsSpace(s[i], flavor)
  {
    if s == [] || !IsSpace(s[0], flavor) then s else TrimStart(s[1..], flavor)
  }

  function TrimEnd(s: string, flavor: Flavor): (r: string)
    ensures |r| <= |s| && r == s[..|r|]
    ensures r == [] || !IsSpace(r[|r| - 1], flavor)
    ensures forall i :: |r| <= i < |s| ==> IsSpace(s[i], flavor)
  {
    if s == [] || !IsSpace(s[|s| - 1], flavor) then s else TrimEnd(s[..|s| - 1], flavor)
  }

  /** `s.trim()` / `s.strip()`: `s` without its leading and trailing whitespace. */
  function Trim(s: string, flavor: Flavor): string {
    TrimEnd(TrimStart(s, flavor), flavor)
  }

  /** No whitespace at either end: trimming leaves it alone. */
  predicate Trimmed(s: string, flavor: Flavor) {
    s == [] || (!IsSpace(s[0], flavor) && !IsSpace(s[|s| - 1], flavor))
  }

  predicate AllSpace(s: string, flavor: Flavor) {
    forall i :: 0 <= i < |s| ==> IsSpace(s[i], flavor)
  }

  lemma {:induction false} TrimStartSpaces(pre: string, rest: string, flavor: Flavor)
    requires AllSpace(pre, flavor) && (rest == [] || !IsSpace(rest[0], flavor))
    ensures TrimStart(pre + rest, flavor) == rest
    decreases |pre|
  {
    if pre != [] {
      assert (pre + rest)[1..] == pre[1..] + rest;
      TrimStartSpaces(pre[1..], rest, flavor);
    } else {
      assert pre + rest == rest;
    }
  }

  lemma {:induction false} TrimEndSpaces(rest: string, post: string, flavor: Flavor)
    requires AllSpace(post, flavor) && (rest == [] || !IsSpace(rest[|rest| - 1], flavor))
    ensures TrimEnd(rest + post, flavor) == rest
    decreases |post|
  {
    if post != [] {
      assert (rest + post)[..|rest + post| - 1] == rest + post[..|post| - 1];
      TrimEndSpaces(rest, post[..|post| - 1], flavor);
    } else {
      assert rest + post == rest;
    }
  }

  /** Trimming removes exactly the whitespace written around a trimmed text. */
  lemma TrimAround(pre: string, s: string, post: string, flavor: Flavor)
    requires AllSpace(pre, flavor) && AllSpace(post, flavor) && Trimmed(s, flavor)
    ensures Trim(pre + s + post, flavor) == s
  {
    if s == [] {
      assert pre + s + post == pre + post;
      assert AllSpace(pre + post, flavor);
      TrimStartSpaces(pre + post, [], flavor);
      assert pre + post + [] == pre + post;
      TrimEndSpaces([], [], flavor);
    } else {
      assert pre + s + post == pre + (s + post);
      TrimStartSpaces(pre, s + post, flavor);
      TrimEndSpaces(s, post, flavor);
    }
  }

  /** A trimmed text is its own trim. */
  lemma TrimFixed(s: string, flavor: Flavor)
    requires Trimmed(s, flavor)
    ensures Trim(s, flavor) == s
  {
    TrimAround([], s, [], flavor);
    assert [] + s + [] == s;
  }

  /** The blank written after a separator is trimmed away. */
  lemma TrimLeadingBlank(s: string, flavor: Flavor)
    requires Trimmed(s, flavor)
    ensures Trim([' '] + s, flavor) == s
  {
    assert AllSpace([' '], flavor);
    TrimAround([' '], s, [], flavor);
    assert [' '] + s + [] == [' '] + s;
  }

  /** The result of trimming is trimmed. */
  lemma TrimIsTrimmed(s: string, flavor: Flavor)
    ensures Trimmed(Trim(s, flavor), flavor)
  {
    var a := TrimStart(s, flavor);
    var r := TrimEnd(a, flavor);
    assert r == a[..|r|];
    assert r != [] ==> r[0] == a[0];
  }

  /** A string is blank when trimming leaves nothing. */
  predicate Blank(s: string, flavor: Flavor) {
    Trim(s, flavor) == ""
  }

  lemma {:induction false} BlankIffAllSpace(s: string, flavor: Flavor)
    ensures Blank(s, flavor) <==> forall i :: 0 <= i < |s| ==> IsSpace(s[i], flavor)
  {
    var a := TrimStart(s, flavor);
    assert a != [] ==> a[0] == s[|s| - |a|];
  }

  // ---------------------------------------------------------------------------
  // Case, digits, numbers, lengths
  // ---------------------------------------------------------------------------

  function LowerChar(c: char): char {
    if 'A' <= c <= 'Z' then (c as int + 32) as char else c
  }

  /** `s.toLowerCase()` on the ASCII letters. */
  function ToLower(s: string): (r: string)
    ensures |r| == |s| && forall i :: 0 <= i < |s| ==> r[i] == LowerChar(s[i])
  {
    if s == [] then [] else [LowerChar(s[0])] + ToLower(s[1..])
  }

  /** Lower-casing twice is lower-casing once. */
  lemma ToLowerIdempotent(s: string)
    ensures ToLower(ToLower(s)) == ToLower(s)
  {
    assert forall i :: 0 <= i < |s| ==> LowerChar(LowerChar(s[i])) == LowerChar(s[i]);
  }

  predicate IsDigit(c: char) {
    '0' <= c <= '9'
  }

  predicate AllDigits(s: string) {
    forall i :: 0 <= i < |s| ==> IsDigit(s[i])
  }

  function DigitChar(d: nat): (c: char)
    requires d < 10
    ensures IsDigit(c)
  {
    (48 + d) as char
  }

  function DigitValue(c: char): nat
    requires IsDigit(c)
  {
    c as int - 48
  }

  /** Decimal rendering of a natural number, as JavaScript's `${n}` and Python's
      `str(n)` write it: no sign, no leading zero. */
  function NatToString(n: nat): (s: string)
    ensures |s| >= 1 && AllDigits(s)
    ensures |s| > 1 ==> s[0] != '0'
    decreases n
  {
    if n < 10 then [DigitChar(n)] else NatToString(n / 10) + [DigitChar(n % 10)]
  }

  /** The value of a string of decimal digits (`parseInt` on a digit string). */
  function DigitsValue(s: string): nat
    requires AllDigits(s)
    decreases |s|
  {
    if s == [] then 0 else DigitsValue(s[..|s| - 1]) * 10 + DigitValue(s[|s| - 1])
  }

  /** Reading back a rendered number gives the number. */
  lemma {:induction false} DigitsValueOfNatToString(n: nat)
    ensures DigitsValue(NatToString(n)) == n
    decreases n
  {
    if n >= 10 {
      DigitsValueOfNatToString(n / 10);
      var s := NatToString(n);
      assert s[..|s| - 1] == NatToString(n / 10);
    }
  }

  /** Rendering is injective, so different numbers never render alike. */
  lemma NatToStringInjective(m: nat, n: nat)
    requires NatToString(m) == NatToString(n)
    ensures m == n
  {
    DigitsValueOfNatToString(m);
    DigitsValueOfNatToString(n);
  }

  /** Number of leading decimal digits of `s`. */
  function LeadingDigits(s: string): (k: nat)
    ensures k <= |s| && AllDigits(s[..k]) && (k < |s| ==> !IsDigit(s[k]))
  {
    if s == [] || !IsDigit(s[0]) then 0 else 1 + LeadingDigits(s[1..])
  }

  /** A rendered number followed by a non-digit is read back whole. */
  lemma {:induction false} LeadingDigitsOfNumber(n: nat, rest: string)
    requires rest == [] || !IsDigit(rest[0])
    ensures LeadingDigits(NatToString(n) + rest) == |NatToString(n)|
  {
    var d := NatToString(n);
    LeadingDigitsOfDigits(d, rest);
  }

  lemma {:induction false} LeadingDigitsOfDigits(d: string, rest: string)
    requires AllDigits(d)
    requires rest == [] || !IsDigit(rest[0])
    ensures LeadingDigits(d + rest) == |d|
    decreases |d|
  {
    if d != [] {
      assert (d + rest)[1..] == d[1..] + rest;
      LeadingDigitsOfDigits(d[1..], rest);
    }
  }

  /** Length of `s` in UTF-16 code units, which is what JavaScript's `.length` counts:
      characters outside the Basic Multilingual Plane take two. */
  function Utf16Length(s: string): (n: nat)
    ensures |s| <= n <= 2 * |s|
  {
    if s == [] then 0 else (if s[0] as int >= 0x1_0000 then 2 else 1) + Utf16Length(s[1..])
  }
}
