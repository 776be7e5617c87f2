/**
 The Python `str` operations the mail helpers rely on, over `seq<char>`:
 `s.split(c)` for a one-character separator, `s.lstrip(c)`, `s.rstrip(c)` and
 `s.strip(c)` for a one-character set, and `posixpath.basename`.
 */
module PyStr {

  /** Number of occurrences of `c` in `s`. */
  function Count(s: string, c: char): (n: nat)
  {
    if s == [] then 0 else (if s[0] == c then 1 else 0) + Count(s[1..], c)
  }

  /** `c` repeated `n` times. */
  function Rep(c: char, n: nat): (r: string)
  {
    seq(n, _ => c)
  }

  /** Concatenation of `pieces` with `c` between neighbours: Python `c.join(pieces)`. */
  function Join(pieces: seq<string>, c: char): (s: string)
    requires |pieces| >= 1
  {
    if |pieces| == 1 then pieces[0] else pieces[0] + [c] + Join(pieces[1..], c)
  }

  /** `s.split(c)`: the maximal runs of `s` between occurrences of `c`. */
  function Split(s: string, c: char): (pieces: seq<string>)
    ensures |pieces| == Count(s, c) + 1
    ensures forall i :: 0 <= i < |pieces| ==> c !in pieces[i]
    ensures Join(pieces, c) == s
  {
    if s == [] then [[]]
    else
      var rest := Split(s[1..], c);
      if s[0] == c then [[]] + rest
      else
        assert s == [s[0]] + s[1..];
        [[s[0]] + rest[0]] + rest[1..]
  }

  /** Splitting a string that does not contain the separator yields the string itself. */
  lemma {:induction false} SplitWithoutSeparator(s: string, c: char)
    requires c !in s
    ensures Split(s, c) == [s]
  {
    if s != [] {
      SplitWithoutSeparator(s[1..], c);
    }
  }

  /** Splitting at one separator splits the two sides independently. */
  lemma {:induction false} SplitAround(a: string, c: char, t: string)
    ensures Split(a + [c] + t, c) == Split(a, c) + Split(t, c)
  {
    if a == [] {
      assert a + [c] + t == [c] + t;
      assert ([c] + t)[1..] == t;
    } else {
      assert (a + [c] + t)[1..] == a[1..] + [c] + t;
      SplitAround(a[1..], c, t);
    }
  }

  /** Joining pieces free of the separator and splitting again gives the pieces back. */
  lemma {:induction false} SplitJoin(pieces: seq<string>, c: char)
    requires |pieces| >= 1
    requires forall i :: 0 <= i < |pieces| ==> c !in pieces[i]
    ensures Split(Join(pieces, c), c) == pieces
  {
    if |pieces| == 1 {
      SplitWithoutSeparator(pieces[0], c);
    } else {
      SplitJoin(pieces[1..], c);
      SplitAround(pieces[0], c, Join(pieces[1..], c));
      SplitWithoutSeparator(pieces[0], c);
    }
  }

  /** The joined string ends with the separator followed by the last piece. */
  lemma {:induction false} JoinLast(pieces: seq<string>, c: char)
    requires |pieces| >= 2
    ensures Join(pieces, c) == Join(pieces[..|pieces| - 1], c) + [c] + pieces[|pieces| - 1]
  {
    if |pieces| > 2 {
      JoinLast(pieces[1..], c);
      assert pieces[1..][..|pieces| - 2] == pieces[..|pieces| - 1][1..];
    }
  }

  /**
   `s.split(c)[-1]`: the text after the last `c` in `s`, or all of `s` when `c`
   does not occur.
   */
  function AfterLast(s: string, c: char): (r: string)
    ensures c !in r
  {
    var pieces := Split(s, c);
    pieces[|pieces| - 1]
  }

  /** `AfterLast` is a suffix of its input, preceded by `c` unless it is the whole input. */
  lemma AfterLastIsSuffix(s: string, c: char)
    ensures |AfterLast(s, c)| <= |s| && AfterLast(s, c) == s[|s| - |AfterLast(s, c)|..]
    ensures |AfterLast(s, c)| < |s| ==> s[|s| - |AfterLast(s, c)| - 1] == c
    ensures c !in s ==> AfterLast(s, c) == s
  {
    var pieces := Split(s, c);
    if |pieces| > 1 {
      JoinLast(pieces, c);
    }
    if c !in s {
      SplitWithoutSeparator(s, c);
    }
  }

  /** Any text that follows a `c` and holds no `c` itself is what `AfterLast` returns. */
  lemma AfterLastOf(p: string, c: char, q: string)
    requires c !in q
    ensures AfterLast(p + [c] + q, c) == q
  {
    SplitAround(p, c, q);
    SplitWithoutSeparator(q, c);
  }

  /** `s.lstrip(c)`: `s` without its leading run of `c`. */
  function TrimLeft(s: string, c: char): (r: string)
    ensures |r| <= |s| && r == s[|s| - |r|..]
    ensures forall i :: 0 <= i < |s| - |r| ==> s[i] == c
    ensures r == [] || r[0] != c
  {
    if s != [] && s[0] == c then TrimLeft(s[1..], c) else s
  }

  /** `s.rstrip(c)`: `s` without its trailing run of `c`. */
  function TrimRight(s: string, c: char): (r: string)
    ensures |r| <= |s| && r == s[..|r|]
    ensures forall i :: |r| <= i < |s| ==> s[i] == c
    ensures r == [] || r[|r| - 1] != c
  {
    if s != [] && s[|s| - 1] == c then TrimRight(s[..|s| - 1], c) else s
  }

  /** Length of the leading run of `c` in `s`. */
  function Lead(s: string, c: char): (n: nat)
  {
    |s| - |TrimLeft(s, c)|
  }

  /** `s.strip(c)`: `s` without its leading and trailing runs of `c`. */
  function Strip(s: string, c: char): (r: string)
    ensures |r| <= |s|
    ensures r == [] || (r[0] != c && r[|r| - 1] != c)
  {
    TrimRight(TrimLeft(s, c), c)
  }

  /**
   What `Strip` removes: the result is the slice of `s` after its leading run
   of `c` and before its trailing run of `c`, so all its characters come from `s`.
   */
  lemma StripIsSlice(s: string, c: char)
    ensures Lead(s, c) + |Strip(s, c)| <= |s|
    ensures Strip(s, c) == s[Lead(s, c)..Lead(s, c) + |Strip(s, c)|]
    ensures forall i :: 0 <= i < Lead(s, c) ==> s[i] == c
    ensures forall i :: Lead(s, c) + |Strip(s, c)| <= i < |s| ==> s[i] == c
    ensures forall x :: x in Strip(s, c) ==> x in s
  {
    PrefixOfSuffix(s, TrimLeft(s, c), Strip(s, c), c);
  }

  /** A prefix `r` of a suffix `t` of `s`, followed in `t` only by `c`, is a slice of `s` followed only by `c`. */
  lemma PrefixOfSuffix(s: string, t: string, r: string, c: char)
    requires |t| <= |s| && t == s[|s| - |t|..]
    requires |r| <= |t| && r == t[..|r|]
    requires forall j :: |r| <= j < |t| ==> t[j] == c
    ensures r == s[|s| - |t|..|s| - |t| + |r|]
    ensures forall i :: |s| - |t| + |r| <= i < |s| ==> s[i] == c
    ensures forall x :: x in r ==> x in s
  {
    var lead := |s| - |t|;
    forall i | lead + |r| <= i < |s|
      ensures s[i] == c
    {
      assert s[i] == t[i - lead];
    }
    forall x | x in r
      ensures x in s
    {
      var i :| 0 <= i < |r| && r[i] == x;
      assert s[lead + i] == x;
    }
  }

  /** `lstrip` removes exactly a leading run of `c` in front of text that does not start with `c`. */
  lemma {:induction false} TrimLeftOf(c: char, a: nat, t: string)
    requires t == [] || t[0] != c
    ensures TrimLeft(Rep(c, a) + t, c) == t
  {
    if a > 0 {
      assert (Rep(c, a) + t)[1..] == Rep(c, a - 1) + t;
      TrimLeftOf(c, a - 1, t);
    } else {
      assert Rep(c, a) + t == t;
    }
  }

  /** `rstrip` removes exactly a trailing run of `c` after text that does not end with `c`. */
  lemma {:induction false} TrimRightOf(c: char, t: string, b: nat)
    requires t == [] || t[|t| - 1] != c
    ensures TrimRight(t + Rep(c, b), c) == t
  {
    if b > 0 {
      var s := t + Rep(c, b);
      assert s[|s| - 1] == c;
      assert s[..|s| - 1] == t + Rep(c, b - 1);
      assert TrimRight(s, c) == TrimRight(s[..|s| - 1], c);
      TrimRightOf(c, t, b - 1);
    } else {
      assert t + Rep(c, b) == t;
    }
  }

  /**
   Whatever is wrapped in runs of `c` and neither starts nor ends with `c` is
   exactly what `Strip` returns.
   */
  lemma StripOf(c: char, a: nat, m: string, b: nat)
    requires m == [] || (m[0] != c && m[|m| - 1] != c)
    ensures Strip(Rep(c, a) + m + Rep(c, b), c) == m
  {
    if m == [] {
      assert Rep(c, a) + m + Rep(c, b) == Rep(c, a + b) + [];
      TrimLeftOf(c, a + b, []);
    } else {
      assert Rep(c, a) + m + Rep(c, b) == Rep(c, a) + (m + Rep(c, b));
      TrimLeftOf(c, a, m + Rep(c, b));
      TrimRightOf(c, m, b);
    }
  }

  /** Stripping twice strips nothing more. */
  lemma StripIdempotent(s: string, c: char)
    ensures Strip(Strip(s, c), c) == Strip(s, c)
  {
    var r := Strip(s, c);
    assert Rep(c, 0) + r + Rep(c, 0) == r;
    StripOf(c, 0, r, 0);
  }

  /** `posixpath.basename(path)`: the text after the last `/`. */
  function Basename(path: string): (name: string)
    ensures '/' !in name
  {
    AfterLast(path, '/')
  }

  /** The base name is the path's final component: a suffix preceded by `/` unless it is the whole path. */
  lemma BasenameIsLastComponent(path: string)
    ensures |Basename(path)| <= |path| && Basename(path) == path[|path| - |Basename(path)|..]
    ensures |Basename(path)| < |path| ==> path[|path| - |Basename(path)| - 1] == '/'
    ensures '/' !in path ==> Basename(path) == path
  {
    AfterLastIsSuffix(path, '/');
  }
}
