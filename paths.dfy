/** Node's `path.extname` on POSIX paths, which both the upload filter and the
    format dispatcher use to decide what a file is. */
module Paths {
  import opened Text

  /** Index of the last `c` in `s`, or -1. */
  function LastIndexOf(s: string, c: char): (r: int)
    ensures -1 <= r < |s|
    ensures r >= 0 ==> s[r] == c && forall j :: r < j < |s| ==> s[j] != c
    ensures r < 0 <==> c !in s
    decreases |s|
  {
    if s == [] then -1
    else if s[|s| - 1] == c then |s| - 1
    else LastIndexOf(s[..|s| - 1], c)
  }

  /** The last `c` of `a + b` is the last one of `b` when `b` has one, else the last of `a`. */
  lemma {:induction false} LastIndexOfAppend(a: string, b: string, c: char)
    ensures LastIndexOf(a + b, c) == if c in b then |a| + LastIndexOf(b, c) else LastIndexOf(a, c)
    decreases |b|
  {
    if b != [] && b[|b| - 1] != c {
      assert (a + b)[..|a + b| - 1] == a + b[..|b| - 1];
      LastIndexOfAppend(a, b[..|b| - 1], c);
      assert c in b <==> c in b[..|b| - 1];
    } else if b == [] {
      assert a + b == a;
    }
  }

  /** The path without its trailing separators. */
  function DropTrailingSlashes(s: string): (r: string)
    ensures |r| <= |s| && r == s[..|r|]
    ensures r == [] || r[|r| - 1] != '/'
    ensures forall i :: |r| <= i < |s| ==> s[i] == '/'
    decreases |s|
  {
    if s != [] && s[|s| - 1] == '/' then DropTrailingSlashes(s[..|s| - 1]) else s
  }

  lemma {:induction false} DropTrailingSlashesAppend(a: string, b: string)
    requires DropTrailingSlashes(b) != []
    ensures DropTrailingSlashes(a + b) == a + DropTrailingSlashes(b)
    decreases |b|
  {
    if b[|b| - 1] == '/' {
      assert (a + b)[..|a + b| - 1] == a + b[..|b| - 1];
      DropTrailingSlashesAppend(a, b[..|b| - 1]);
    }
  }

  /** The last component of a path that has no trailing separator. */
  function LastComponent(s: string): (r: string)
    ensures '/' !in r
    ensures |r| <= |s| && r == s[|s| - |r|..]
  {
    s[LastIndexOf(s, '/') + 1..]
  }

  /** The extension of one path component: from its last dot on, unless that dot is
      its first character or there is none; `..` has none. */
  function ComponentExtension(c: string): string {
    var d := LastIndexOf(c, '.');
    if d <= 0 || c == ".." then "" else c[d..]
  }

  /** `path.extname(p)`. */
  function Extname(p: string): string {
    ComponentExtension(LastComponent(DropTrailingSlashes(p)))
  }

  /** An extension is empty or a dot followed by characters that are neither a
      dot nor a separator. */
  lemma ExtnameShape(p: string)
    ensures var e := Extname(p);
      e == [] || (|e| >= 1 && e[0] == '.' && '.' !in e[1..] && '/' !in e)
  {
    var c := LastComponent(DropTrailingSlashes(p));
    var d := LastIndexOf(c, '.');
    if d > 0 && c != ".." {
      var e := c[d..];
      assert forall j :: 1 <= j < |e| ==> e[j] == c[d + j];
    }
  }

  /** Text in front of a name never changes the extension the name has. This is why
      prefixing an upload with a timestamp keeps the file's type. */
  lemma ExtnameIgnoresPrefix(prefix: string, name: string)
    requires Extname(name) != ""
    ensures Extname(prefix + name) == Extname(name)
  {
    var t := DropTrailingSlashes(name);
    DropTrailingSlashesAppend(prefix, name);
    LastComponentAppend(prefix, t);
    var c := LastComponent(t);
    if '/' !in t {
      ComponentExtensionAppend(LastComponent(prefix), c);
    }
  }

  lemma LastComponentAppend(a: string, t: string)
    ensures LastComponent(a + t) == if '/' in t then LastComponent(t) else LastComponent(a) + t
  {
    LastIndexOfAppend(a, t, '/');
    if '/' in t {
      var l := LastIndexOf(t, '/');
      assert (a + t)[|a| + l + 1..] == t[l + 1..];
    } else {
      var l := LastIndexOf(a, '/');
      assert (a + t)[l + 1..] == a[l + 1..] + t;
    }
  }

  lemma ComponentExtensionAppend(q: string, c: string)
    requires ComponentExtension(c) != ""
    ensures ComponentExtension(q + c) == ComponentExtension(c)
  {
    LastIndexOfAppend(q, c, '.');
    var d := LastIndexOf(c, '.');
    assert (q + c)[|q| + d..] == c[d..];
    assert |q + c| >= |c| >= 2;
    assert (q + c) == ".." ==> q == [];
  }

  /** The extension reads the same after lower-casing, since neither `/` nor `.`
      is a letter. */
  lemma ExtnameToLower(p: string)
    ensures Extname(ToLower(p)) == ToLower(Extname(p))
  {
    DropTrailingLower(p);
    var t := DropTrailingSlashes(p);
    LastComponentLower(t);
    ComponentExtensionLower(LastComponent(t));
  }

  lemma LastComponentLower(t: string)
    ensures LastComponent(ToLower(t)) == ToLower(LastComponent(t))
  {
    LastIndexOfLower(t, '/');
    var l := LastIndexOf(t, '/');
    assert ToLower(t)[l + 1..] == ToLower(t[l + 1..]);
  }

  lemma ComponentExtensionLower(c: string)
    ensures ComponentExtension(ToLower(c)) == ToLower(ComponentExtension(c))
  {
    LastIndexOfLower(c, '.');
    DotDotLower(c);
    var d := LastIndexOf(c, '.');
    if d > 0 {
      ToLowerSuffix(c, d);
    }
  }

  lemma ToLowerSuffix(s: string, k: nat)
    requires k <= |s|
    ensures ToLower(s)[k..] == ToLower(s[k..])
  {
    var x := ToLower(s)[k..];
    var y := ToLower(s[k..]);
    forall j | 0 <= j < |x|
      ensures x[j] == y[j]
    {
      assert x[j] == LowerChar(s[k + j]);
    }
  }

  /** Only `..` lower-cases to `..`. */
  lemma DotDotLower(c: string)
    ensures ToLower(c) == ".." <==> c == ".."
  {
    var l := ToLower(c);
    if |c| == 2 {
      assert l[0] == LowerChar(c[0]) && l[1] == LowerChar(c[1]);
      assert l == ".." <==> l[0] == '.' && l[1] == '.';
      assert c == ".." <==> c[0] == '.' && c[1] == '.';
    } else {
      assert |l| != 2;
    }
  }

  lemma {:induction false} DropTrailingLower(s: string)
    ensures DropTrailingSlashes(ToLower(s)) == ToLower(DropTrailingSlashes(s))
    decreases |s|
  {
    if s != [] && s[|s| - 1] == '/' {
      assert ToLower(s)[..|s| - 1] == ToLower(s[..|s| - 1]);
      DropTrailingLower(s[..|s| - 1]);
    }
  }

  lemma {:induction false} LastIndexOfLower(s: string, c: char)
    requires c == '/' || c == '.'
    ensures LastIndexOf(ToLower(s), c) == LastIndexOf(s, c)
    decreases |s|
  {
    if s != [] && s[|s| - 1] != c {
      assert ToLower(s)[..|s| - 1] == ToLower(s[..|s| - 1]);
      LastIndexOfLower(s[..|s| - 1], c);
    }
  }
}
