/**
 * `clean_filename` of the corpus partitioner: turns a department name into
 * a name that is safe as a file name. Forbidden characters become `_`, the
 * ends are stripped of whitespace, inner spaces become `_`, and every run
 * of underscores is collapsed to one.
 */
module Filenames {

  /** The characters that may not appear in a file name: `<>:"/\|?*`. */
  const InvalidChars: string := "<>:\"/\\|?*"

  /** Python's `str.isspace` on one character: what `str.strip()` removes. */
  predicate IsSpace(c: char)
  {
    || c == ' '
    || '\t' <= c <= '\r'
    || '\U{1C}' <= c <= '\U{1F}'
    || c == '\U{85}'
    || c == '\U{A0}'
    || c == '\U{1680}'
    || '\U{2000}' <= c <= '\U{200A}'
    || c == '\U{2028}'
    || c == '\U{2029}'
    || c == '\U{202F}'
    || c == '\U{205F}'
    || c == '\U{3000}'
  }

  /** `s.replace(a, b)` for one-character `a` and `b`. */
  function ReplaceChar(s: string, a: char, b: char): string
  {
    seq(|s|, k requires 0 <= k < |s| => if s[k] == a then b else s[k])
  }

  /** Every character of `s` that occurs in `cs` replaced by `_`. */
  function MaskChars(s: string, cs: string): string
  {
    seq(|s|, k requires 0 <= k < |s| => if s[k] in cs then '_' else s[k])
  }

  /** `s.lstrip()`: the longest suffix of `s` that does not start with whitespace. */
  function StripLeft(s: string): (r: string)
    ensures |r| <= |s| && r == s[|s| - |r|..]
    ensures r == [] || !IsSpace(r[0])
  {
    if s != [] && IsSpace(s[0]) then StripLeft(s[1..]) else s
  }

  /** `lstrip` removes only whitespace: every character before the suffix it keeps is a space. */
  lemma {:induction false} StripLeftRemovesSpace(s: string)
    ensures forall k :: 0 <= k < |s| - |StripLeft(s)| ==> IsSpace(s[k])
  {
    if s != [] && IsSpace(s[0]) {
      StripLeftRemovesSpace(s[1..]);
      assert forall k :: 1 <= k < |s| ==> s[k] == s[1..][k - 1];
    }
  }

  /** `s.rstrip()`: the longest prefix of `s` that does not end with whitespace. */
  function StripRight(s: string): (r: string)
    ensures |r| <= |s| && r == s[..|r|]
    ensures r == [] || !IsSpace(r[|r| - 1])
  {
    if s != [] && IsSpace(s[|s| - 1]) then StripRight(s[..|s| - 1]) else s
  }

  /** `rstrip` removes only whitespace: every character after the prefix it keeps is a space. */
  lemma {:induction false} StripRightRemovesSpace(s: string)
    ensures forall k :: |StripRight(s)| <= k < |s| ==> IsSpace(s[k])
  {
    if s != [] && IsSpace(s[|s| - 1]) {
      StripRightRemovesSpace(s[..|s| - 1]);
      assert forall k :: 0 <= k < |s| - 1 ==> s[k] == s[..|s| - 1][k];
    }
  }

  /** `s.strip()`. */
  function Strip(s: string): (r: string)
    ensures r == [] || (!IsSpace(r[0]) && !IsSpace(r[|r| - 1]))
  {
    StripRight(StripLeft(s))
  }

  /** `'__' in s`. */
  predicate ContainsDouble(s: string)
  {
    exists k | 0 <= k < |s| - 1 :: s[k] == '_' && s[k + 1] == '_'
  }

  /**
   * `s.replace('__', '_')`: Python replaces non-overlapping occurrences from
   * left to right, so `___` becomes `__`, not `_`.
   */
  function ReplaceDouble(s: string): (r: string)
    ensures |r| <= |s|
    ensures s != [] ==> r != [] && r[0] == s[0]
    ensures ContainsDouble(s) ==> |r| < |s|
  {
    if |s| >= 2 && s[0] == '_' && s[1] == '_' then "_" + ReplaceDouble(s[2..])
    else if s == [] then []
    else
      assert ContainsDouble(s) && !(s[0] == '_' && s[1] == '_') ==> ContainsDouble(s[1..]) by {
        if ContainsDouble(s) && !(s[0] == '_' && s[1] == '_') {
          var k :| 0 <= k < |s| - 1 && s[k] == '_' && s[k + 1] == '_';
          assert s[1..][k - 1] == s[k];
        }
      }
      [s[0]] + ReplaceDouble(s[1..])
  }

  /**
   * Reference definition of "collapse every run of underscores to one":
   * an underscore followed by another underscore is dropped.
   */
  function CollapseUnderscores(s: string): (r: string)
    ensures |r| <= |s|
    ensures s != [] ==> r != [] && r[0] == s[0] && r[|r| - 1] == s[|s| - 1]
  {
    if |s| < 2 then s
    else if s[0] == '_' && s[1] == '_' then CollapseUnderscores(s[1..])
    else [s[0]] + CollapseUnderscores(s[1..])
  }

  /** Collapsing only deletes characters. */
  lemma {:induction false} CollapseKeepsChars(s: string)
    ensures forall c :: c in CollapseUnderscores(s) ==> c in s
  {
    if |s| >= 2 {
      CollapseKeepsChars(s[1..]);
    }
  }

  /** A collapsed string holds no `__`. */
  lemma {:induction false} CollapseHasNoDouble(s: string)
    ensures !ContainsDouble(CollapseUnderscores(s))
  {
    if |s| >= 2 {
      var t := CollapseUnderscores(s[1..]);
      CollapseHasNoDouble(s[1..]);
      if !(s[0] == '_' && s[1] == '_') {
        var r := [s[0]] + t;
        assert t[0] == s[1];
        forall k | 0 <= k < |r| - 1
          ensures !(r[k] == '_' && r[k + 1] == '_')
        {
          if k > 0 {
            assert r[k] == t[k - 1] && r[k + 1] == t[k];
          }
        }
        assert CollapseUnderscores(s) == r;
      }
    }
  }

  lemma CollapseUnderscoreCons(x: string)
    ensures CollapseUnderscores("_" + x)
         == if x != [] && x[0] == '_' then CollapseUnderscores(x) else "_" + CollapseUnderscores(x)
  {
    assert ("_" + x)[1..] == x;
  }

  /** One pass of the source's replacement loop leaves the collapsed form unchanged. */
  lemma {:induction false} CollapseAfterReplace(s: string)
    ensures CollapseUnderscores(ReplaceDouble(s)) == CollapseUnderscores(s)
    decreases |s|
  {
    if |s| >= 2 && s[0] == '_' && s[1] == '_' {
      var u := s[2..];
      CollapseAfterReplace(u);
      CollapseUnderscoreCons(ReplaceDouble(u));
      CollapseUnderscoreCons(u);
      assert s[1..] == "_" + u;
    } else if |s| >= 2 {
      CollapseAfterReplace(s[1..]);
      if s[0] == '_' {
        assert ReplaceDouble(s) == "_" + ReplaceDouble(s[1..]);
        CollapseUnderscoreCons(ReplaceDouble(s[1..]));
      } else {
        var r := ReplaceDouble(s);
        assert r[1..] == ReplaceDouble(s[1..]);
      }
    } else if |s| == 1 {
      assert ReplaceDouble(s) == s;
    }
  }

  /** A string without `__` is its own collapsed form: the loop stops at the right place. */
  lemma {:induction false} CollapseWithoutDouble(s: string)
    requires !ContainsDouble(s)
    ensures CollapseUnderscores(s) == s
  {
    if |s| >= 2 {
      assert !(s[0] == '_' && s[1] == '_');
      assert !ContainsDouble(s[1..]) by {
        forall k | 0 <= k < |s[1..]| - 1
          ensures !(s[1..][k] == '_' && s[1..][k + 1] == '_')
        {
          assert s[1..][k] == s[k + 1] && s[1..][k + 1] == s[k + 2];
        }
      }
      CollapseWithoutDouble(s[1..]);
      assert [s[0]] + s[1..] == s;
    }
  }

  /** What `clean_filename(s)` returns. */
  function Cleaned(s: string): string
  {
    CollapseUnderscores(ReplaceChar(Strip(MaskChars(s, InvalidChars)), ' ', '_'))
  }

  /** `clean_filename`: the character loop, the strip and space step, then the `__` loop. */
  method CleanFilename(filename: string) returns (r: string)
    ensures r == Cleaned(filename)
  {
    r := filename;
    for i := 0 to |InvalidChars|
      invariant r == MaskChars(filename, InvalidChars[..i])
    {
      assert InvalidChars[..i + 1] == InvalidChars[..i] + [InvalidChars[i]];
      r := ReplaceChar(r, InvalidChars[i], '_');
    }
    assert InvalidChars[..|InvalidChars|] == InvalidChars;
    r := ReplaceChar(Strip(r), ' ', '_');
    ghost var collapsed := CollapseUnderscores(r);
    while ContainsDouble(r)
      invariant CollapseUnderscores(r) == collapsed
      decreases |r|
    {
      CollapseAfterReplace(r);
      r := ReplaceDouble(r);
    }
    CollapseWithoutDouble(r);
  }

  /** A character `clean_filename` never leaves in its result. */
  predicate SafeChar(c: char)
  {
    c !in InvalidChars && c != ' '
  }

  lemma MaskedHasNoInvalid(s: string)
    ensures forall k :: 0 <= k < |MaskChars(s, InvalidChars)| ==> MaskChars(s, InvalidChars)[k] !in InvalidChars
  {
    assert '_' !in InvalidChars;
  }

  /**
   * `s.strip()` is the slice `s[a..a + |Strip(s)|]` with only whitespace
   * before and after it.
   */
  lemma StripIsSlice(s: string) returns (a: nat)
    ensures a + |Strip(s)| <= |s| && Strip(s) == s[a..a + |Strip(s)|]
    ensures forall k :: 0 <= k < a ==> IsSpace(s[k])
    ensures forall k :: a + |Strip(s)| <= k < |s| ==> IsSpace(s[k])
  {
    var l := StripLeft(s);
    var r := StripRight(l);
    StripLeftRemovesSpace(s);
    StripRightRemovesSpace(l);
    a := TrimmedSlice(s, l, r);
  }

  /**
   * `r`, a prefix of the suffix `l` of `s`, with only whitespace cut off
   * either side, is a slice of `s` with only whitespace outside it.
   */
  lemma TrimmedSlice(s: string, l: string, r: string) returns (a: nat)
    requires |l| <= |s| && l == s[|s| - |l|..] && forall k :: 0 <= k < |s| - |l| ==> IsSpace(s[k])
    requires |r| <= |l| && r == l[..|r|] && forall k :: |r| <= k < |l| ==> IsSpace(l[k])
    ensures a == |s| - |l|
    ensures a + |r| <= |s| && r == s[a..a + |r|]
    ensures forall k :: 0 <= k < a ==> IsSpace(s[k])
    ensures forall k :: a + |r| <= k < |s| ==> IsSpace(s[k])
  {
    a := |s| - |l|;
    PrefixOfSuffix(s, a, l, r);
    forall k | a + |r| <= k < |s|
      ensures IsSpace(s[k])
    {
      assert s[k] == l[k - a];
    }
  }

  /** A prefix `r` of the suffix `l == s[a..]` is the slice `s[a..a + |r|]`. */
  lemma PrefixOfSuffix<T>(s: seq<T>, a: nat, l: seq<T>, r: seq<T>)
    requires a <= |s| && l == s[a..] && |r| <= |l| && r == l[..|r|]
    ensures a + |r| <= |s| && r == s[a..a + |r|]
  {
  }

  lemma SpacedIsSafe(s: string) returns (spaced: string)
    ensures spaced == ReplaceChar(Strip(MaskChars(s, InvalidChars)), ' ', '_')
    ensures forall k :: 0 <= k < |spaced| ==> SafeChar(spaced[k])
  {
    var masked := MaskChars(s, InvalidChars);
    MaskedHasNoInvalid(s);
    StripKeepsValid(masked);
    spaced := ReplaceChar(Strip(masked), ' ', '_');
    assert '_' !in InvalidChars;
  }

  lemma StripKeepsValid(t: string)
    requires forall k :: 0 <= k < |t| ==> t[k] !in InvalidChars
    ensures forall k :: 0 <= k < |Strip(t)| ==> Strip(t)[k] !in InvalidChars
  {
    var a := StripIsSlice(t);
    assert forall k :: 0 <= k < |Strip(t)| ==> Strip(t)[k] == t[a + k];
  }

  /**
   * A cleaned name holds none of `<>:"/\|?*`, no space and no `__`, and it
   * neither starts nor ends with whitespace.
   */
  lemma CleanedIsSafe(s: string)
    ensures forall k :: 0 <= k < |Cleaned(s)| ==> SafeChar(Cleaned(s)[k])
    ensures !ContainsDouble(Cleaned(s))
    ensures Cleaned(s) == [] || (!IsSpace(Cleaned(s)[0]) && !IsSpace(Cleaned(s)[|Cleaned(s)| - 1]))
  {
    var spaced := SpacedIsSafe(s);
    var stripped := Strip(MaskChars(s, InvalidChars));
    var r := CollapseUnderscores(spaced);
    CollapseKeepsChars(spaced);
    CollapseHasNoDouble(spaced);
    forall k | 0 <= k < |r|
      ensures SafeChar(r[k])
    {
      assert r[k] in r;
      assert r[k] in spaced;
    }
    if stripped != [] {
      assert spaced[0] == stripped[0] && spaced[|spaced| - 1] == stripped[|stripped| - 1];
    }
  }

  lemma StripWithoutEdgeSpace(s: string)
    requires s == [] || (!IsSpace(s[0]) && !IsSpace(s[|s| - 1]))
    ensures Strip(s) == s
  {
  }

  /** Cleaning a cleaned name changes nothing. */
  lemma CleanedIdempotent(s: string)
    ensures Cleaned(Cleaned(s)) == Cleaned(s)
  {
    var r := Cleaned(s);
    CleanedIsSafe(s);
    SafeIsUnchanged(r);
    StripWithoutEdgeSpace(r);
    CollapseWithoutDouble(r);
  }

  /** Masking and the space replacement leave a string of safe characters as it is. */
  lemma SafeIsUnchanged(r: string)
    requires forall k :: 0 <= k < |r| ==> SafeChar(r[k])
    ensures MaskChars(r, InvalidChars) == r && ReplaceChar(r, ' ', '_') == r
  {
    assert MaskChars(r, InvalidChars) == r;
    assert ReplaceChar(r, ' ', '_') == r;
  }

  lemma MaskExample()
    ensures MaskChars("C/D:E", InvalidChars) == "C_D_E"
  {
    var m := MaskChars("C/D:E", InvalidChars);
    assert 'C' !in InvalidChars && 'D' !in InvalidChars && 'E' !in InvalidChars;
    assert '/' in InvalidChars && ':' in InvalidChars;
    assert m[0] == 'C' && m[1] == '_' && m[2] == 'D' && m[3] == '_' && m[4] == 'E';
  }

  lemma StripExample()
    ensures Strip("C_D_E") == "C_D_E"
  {
    var m := "C_D_E";
    assert !IsSpace(m[0]) && !IsSpace(m[4]);
    StripWithoutEdgeSpace(m);
  }

  lemma CollapseExample()
    ensures CollapseUnderscores("C_D_E") == "C_D_E"
  {
    var m := "C_D_E";
    assert !ContainsDouble(m) by {
      assert forall k :: 0 <= k < |m| - 1 ==> m[k] != '_' || m[k + 1] != '_';
    }
    CollapseWithoutDouble(m);
  }

  lemma SpaceExample()
    ensures ReplaceChar("C_D_E", ' ', '_') == "C_D_E"
  {
    var m := "C_D_E";
    assert forall k :: 0 <= k < |m| ==> m[k] != ' ';
  }

  /** `C/D:E` is cleaned to `C_D_E`. */
  lemma CleanedExample()
    ensures Cleaned("C/D:E") == "C_D_E"
  {
    MaskExample();
    StripExample();
    SpaceExample();
    CollapseExample();
  }
}
