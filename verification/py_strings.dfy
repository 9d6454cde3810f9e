/** Python's `str.strip()` with no argument: remove whitespace from both
    ends of a string and leave everything between untouched. */
module PyStrings {

  /** The 29 code points Python's `str.isspace` accepts, one by one: the
      set that `str.strip()` removes. */
  const PythonSpaces: set<char> :=
    {'\t', '\n', '\U{B}', '\U{C}', '\r', '\U{1C}', '\U{1D}', '\U{1E}', '\U{1F}', ' ',
     '\U{85}', '\U{A0}', '\U{1680}',
     '\U{2000}', '\U{2001}', '\U{2002}', '\U{2003}', '\U{2004}', '\U{2005}',
     '\U{2006}', '\U{2007}', '\U{2008}', '\U{2009}', '\U{200A}',
     '\U{2028}', '\U{2029}', '\U{202F}', '\U{205F}', '\U{3000}'}

  /** Whitespace for `str.strip()`, tested by ranges: the ASCII controls
      TAB..CR and FS..US, SPACE, NEL, NO-BREAK SPACE, OGHAM SPACE MARK, the
      spaces EN QUAD..HAIR SPACE, the line and paragraph separators, NARROW
      NO-BREAK SPACE, MEDIUM MATHEMATICAL SPACE and IDEOGRAPHIC SPACE. */
  function IsWhitespace(c: char): (b: bool)
    ensures b <==> c in PythonSpaces
  {
    || ('\t' <= c <= '\r')
    || ('\U{1C}' <= c <= '\U{1F}')
    || c == ' '
    || c == '\U{85}'
    || c == '\U{A0}'
    || c == '\U{1680}'
    || ('\U{2000}' <= c <= '\U{200A}')
    || c == '\U{2028}'
    || c == '\U{2029}'
    || c == '\U{202F}'
    || c == '\U{205F}'
    || c == '\U{3000}'
  }

  /** Every character of `s` is whitespace. */
  ghost predicate AllWhitespace(s: string)
  {
    forall k :: 0 <= k < |s| ==> IsWhitespace(s[k])
  }

  /** `s` neither starts nor ends with whitespace (the empty string qualifies). */
  predicate NoEdgeWhitespace(s: string)
  {
    |s| == 0 || (!IsWhitespace(s[0]) && !IsWhitespace(s[|s| - 1]))
  }

  /** `s[i..j]` is what remains of `s` after removing its whitespace ends:
      the parts cut off are whitespace and the part kept has no whitespace
      at either end. This is the reference definition `Strip` is proved
      against. */
  ghost predicate StripsTo(s: string, i: int, j: int)
  {
    && 0 <= i <= j <= |s|
    && AllWhitespace(s[..i])
    && AllWhitespace(s[j..])
    && NoEdgeWhitespace(s[i..j])
  }

  /** `r` is `s[i..]` cut short to its first `|r|` characters, and that cut
      removes exactly the whitespace ends of `s`. */
  ghost predicate StrippedAt(s: string, i: int, r: string)
  {
    && 0 <= i <= |s| - |r|
    && r == s[i..i + |r|]
    && StripsTo(s, i, i + |r|)
  }

  /** `s` without its leading whitespace. */
  function TrimLeft(s: string): string
    decreases |s|
  {
    if |s| > 0 && IsWhitespace(s[0]) then TrimLeft(s[1..]) else s
  }

  /** `s` without its trailing whitespace. */
  function TrimRight(s: string): string
    decreases |s|
  {
    if |s| > 0 && IsWhitespace(s[|s| - 1]) then TrimRight(s[..|s| - 1]) else s
  }

  /** Python's `s.strip()`: the kept slice is described by `StripsTo`. */
  function Strip(s: string): (r: string)
    ensures exists i :: StrippedAt(s, i, r)
  {
    var l := TrimLeft(s);
    var r := TrimRight(l);
    TrimLeftSpec(s);
    TrimRightSpec(l);
    var i := |s| - |l|;
    assert s[i..i + |r|] == r;
    assert s[i + |r|..] == l[|r|..];
    assert |r| > 0 ==> r[0] == l[0];
    assert StrippedAt(s, i, r);
    r
  }

  /** `TrimLeft` removes a whitespace prefix and stops at the first
      character that is not whitespace. */
  lemma {:induction false} TrimLeftSpec(s: string)
    ensures |TrimLeft(s)| <= |s| && TrimLeft(s) == s[|s| - |TrimLeft(s)|..]
    ensures |TrimLeft(s)| == 0 || !IsWhitespace(TrimLeft(s)[0])
    ensures AllWhitespace(s[..|s| - |TrimLeft(s)|])
    decreases |s|
  {
    if |s| > 0 && IsWhitespace(s[0]) {
      var t := s[1..];
      TrimLeftSpec(t);
      var n := |s| - |TrimLeft(t)|;
      assert t[n - 1..] == s[n..];
      forall k | 0 <= k < n
        ensures IsWhitespace(s[..n][k])
      {
        if k > 0 {
          assert s[..n][k] == t[..n - 1][k - 1];
        }
      }
    } else {
      assert s[..0] == [];
    }
  }

  /** `TrimRight` removes a whitespace suffix and stops at the last
      character that is not whitespace. */
  lemma {:induction false} TrimRightSpec(s: string)
    ensures |TrimRight(s)| <= |s| && TrimRight(s) == s[..|TrimRight(s)|]
    ensures |TrimRight(s)| == 0 || !IsWhitespace(TrimRight(s)[|TrimRight(s)| - 1])
    ensures AllWhitespace(s[|TrimRight(s)|..])
    decreases |s|
  {
    if |s| > 0 && IsWhitespace(s[|s| - 1]) {
      var t := s[..|s| - 1];
      TrimRightSpec(t);
      var n := |TrimRight(t)|;
      assert t[..n] == s[..n];
      forall k | 0 <= k < |s| - n
        ensures IsWhitespace(s[n..][k])
      {
        if k < |s| - 1 - n {
          assert s[n..][k] == t[n..][k];
        }
      }
    } else {
      assert s[|s|..] == [];
    }
  }

  /** `Strip` cuts exactly the whitespace ends of `s`: what it removes is
      whitespace and what it keeps has no whitespace at either end. */
  lemma StripSpec(s: string)
    ensures |Strip(s)| <= |s|
    ensures NoEdgeWhitespace(Strip(s))
    ensures exists i :: StrippedAt(s, i, Strip(s))
  {
    var i :| StrippedAt(s, i, Strip(s));
  }

  /** Cutting a whitespace prefix that ends at a non-whitespace character
      (or at the end) is exactly what `TrimLeft` does. */
  lemma {:induction false} TrimLeftAt(s: string, i: int)
    requires 0 <= i <= |s|
    requires AllWhitespace(s[..i])
    requires i == |s| || !IsWhitespace(s[i])
    ensures TrimLeft(s) == s[i..]
    decreases i
  {
    if i > 0 {
      assert s[0] == s[..i][0];
      assert s[1..][..i - 1] == s[1..i];
      var t := s[1..][..i - 1];
      assert AllWhitespace(t) by {
        forall k | 0 <= k < |t|
          ensures IsWhitespace(t[k])
        {
          assert t[k] == s[..i][k + 1];
        }
      }
      TrimLeftAt(s[1..], i - 1);
      assert s[1..][i - 1..] == s[i..];
    }
  }

  /** Cutting a whitespace suffix that starts after a non-whitespace
      character (or at the start) is exactly what `TrimRight` does. */
  lemma {:induction false} TrimRightAt(s: string, j: int)
    requires 0 <= j <= |s|
    requires AllWhitespace(s[j..])
    requires j == 0 || !IsWhitespace(s[j - 1])
    ensures TrimRight(s) == s[..j]
    decreases |s| - j
  {
    if j < |s| {
      var t := s[..|s| - 1];
      assert s[|s| - 1] == s[j..][|s| - 1 - j];
      assert forall k :: 0 <= k < |t| - j ==> t[j..][k] == s[j..][k];
      TrimRightAt(t, j);
      assert t[..j] == s[..j];
    }
  }

  /** The whitespace ends of `s` are all of `s` exactly when every
      character of `s` is whitespace. */
  lemma WhitespaceEndsCover(s: string, i: int)
    requires 0 <= i <= |s|
    ensures AllWhitespace(s[..i]) && AllWhitespace(s[i..]) <==> AllWhitespace(s)
  {
    assert s == s[..i] + s[i..];
  }

  /** The reference definition pins the result down: whenever `s[i..j]` is
      `s` with its whitespace ends removed, `Strip(s)` is `s[i..j]`. */
  lemma StripCharacterized(s: string, i: int, j: int)
    requires StripsTo(s, i, j)
    ensures Strip(s) == s[i..j]
  {
    if i == j {
      WhitespaceEndsCover(s, i);
      assert s[..|s|] == s;
      TrimLeftAt(s, |s|);
    } else {
      StripCharacterizedNonEmpty(s, i, j);
    }
  }

  /** The case of `StripCharacterized` where something is kept. */
  lemma StripCharacterizedNonEmpty(s: string, i: int, j: int)
    requires StripsTo(s, i, j) && i < j
    ensures Strip(s) == s[i..j]
  {
    assert s[i] == s[i..j][0];
    TrimLeftAt(s, i);
    var l := s[i..];
    assert l[j - i..] == s[j..];
    assert l[j - i - 1] == s[i..j][j - i - 1];
    TrimRightAt(l, j - i);
    assert l[..j - i] == s[i..j];
  }

  /** A string with no whitespace at either end is left as it is. */
  lemma StripNoEdge(s: string)
    requires NoEdgeWhitespace(s)
    ensures Strip(s) == s
  {
    assert s[..0] == [] && s[|s|..] == [] && s[0..|s|] == s;
    StripCharacterized(s, 0, |s|);
  }

  /** Stripping twice is stripping once. */
  lemma StripIdempotent(s: string)
    ensures Strip(Strip(s)) == Strip(s)
  {
    StripSpec(s);
    StripNoEdge(Strip(s));
  }

  /** A string made only of whitespace strips to the empty string, and so
      does nothing else. */
  lemma StripEmptyIff(s: string)
    ensures Strip(s) == [] <==> AllWhitespace(s)
  {
    if AllWhitespace(s) {
      assert s[..|s|] == s && s[|s|..] == [];
      StripCharacterized(s, |s|, |s|);
    }
    if Strip(s) == [] {
      StripSpec(s);
      var i :| StrippedAt(s, i, Strip(s));
      WhitespaceEndsCover(s, i);
    }
  }
}
