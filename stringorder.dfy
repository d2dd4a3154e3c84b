/**
 * Python's ordering of `str` values (code point by code point, a proper
 * prefix first) and `sorted` on a set of strings.
 */
module StringOrder {

  /** `a < b` on Python strings. */
  predicate Less(a: string, b: string)
  {
    if a == [] then b != []
    else if b == [] then false
    else if a[0] != b[0] then a[0] < b[0]
    else Less(a[1..], b[1..])
  }

  lemma {:induction false} LessIrreflexive(a: string)
    ensures !Less(a, a)
  {
    if a != [] {
      LessIrreflexive(a[1..]);
    }
  }

  lemma {:induction false} LessTransitive(a: string, b: string, c: string)
    requires Less(a, b) && Less(b, c)
    ensures Less(a, c)
  {
    if a != [] && a[0] == b[0] && b[0] == c[0] {
      LessTransitive(a[1..], b[1..], c[1..]);
    }
  }

  lemma {:induction false} LessTotal(a: string, b: string)
    requires a != b
    ensures Less(a, b) || Less(b, a)
  {
    if a != [] && b != [] && a[0] == b[0] {
      assert a == [a[0]] + a[1..] && b == [b[0]] + b[1..];
      LessTotal(a[1..], b[1..]);
    }
  }

  predicate StrictlySorted(s: seq<string>)
  {
    forall i, j :: 0 <= i < j < |s| ==> Less(s[i], s[j])
  }

  /** A strictly sorted list holds no value twice. */
  lemma StrictlySortedIsDistinct(s: seq<string>)
    requires StrictlySorted(s)
    ensures forall i, j :: 0 <= i < j < |s| ==> s[i] != s[j]
  {
    forall i, j | 0 <= i < j < |s|
      ensures s[i] != s[j]
    {
      LessIrreflexive(s[i]);
    }
  }

  /** Puts `x` into its place in a strictly sorted list that does not hold it. */
  function Insert(s: seq<string>, x: string): (r: seq<string>)
    requires StrictlySorted(s) && x !in s
    ensures StrictlySorted(r) && |r| == |s| + 1
    ensures forall y :: y in r <==> y in s || y == x
  {
    if s == [] || Less(x, s[0]) then
      assert forall j :: 0 < j < |s| ==> Less(x, s[j]) by {
        forall j | 0 < j < |s|
          ensures Less(x, s[j])
        {
          LessTransitive(x, s[0], s[j]);
        }
      }
      [x] + s
    else
      var t := Insert(s[1..], x);
      assert Less(s[0], x) by {
        LessTotal(s[0], x);
      }
      assert forall j :: 0 <= j < |t| ==> Less(s[0], t[j]) by {
        forall j | 0 <= j < |t|
          ensures Less(s[0], t[j])
        {
          assert t[j] in t;
        }
      }
      [s[0]] + t
  }

  /** `sorted(list(s))` for a set of strings. */
  method SortedList(s: set<string>) returns (r: seq<string>)
    ensures StrictlySorted(r) && |r| == |s|
    ensures forall x :: x in r <==> x in s
  {
    r := [];
    var rest := s;
    while rest != {}
      invariant rest <= s
      invariant StrictlySorted(r)
      invariant forall x :: x in r <==> x in s && x !in rest
      invariant |r| + |rest| == |s|
      decreases |rest|
    {
      var x :| x in rest;
      r := Insert(r, x);
      rest := rest - {x};
    }
  }
}
