/**
 * The two regular-expression searches that pull JSON out of a model reply,
 * both with `re.DOTALL`: `\[.*?\]` (lazy) for arrays and `\{.*\}` (greedy)
 * for objects. A match of either pattern is a string that opens with the
 * first bracket and closes with the second; `re.search` takes the leftmost
 * start at which a match exists, then the shortest (lazy) or the longest
 * (greedy) match at that start.
 */
module Extract {
  import opened Wrappers

  /** The first position at or after `from` that holds `c`. */
  function IndexOf(s: string, c: char, from: nat): (r: Option<nat>)
    ensures r.Some? ==> from <= r.value < |s| && s[r.value] == c
                        && forall k :: from <= k < r.value ==> s[k] != c
    ensures r.None? ==> forall k :: from <= k < |s| ==> s[k] != c
    decreases |s| - from
  {
    if from >= |s| then None
    else if s[from] == c then Some(from)
    else IndexOf(s, c, from + 1)
  }

  /** The last position that holds `c`. */
  function LastIndexOf(s: string, c: char): (r: Option<nat>)
    ensures r.Some? ==> r.value < |s| && s[r.value] == c
                        && forall k :: r.value < k < |s| ==> s[k] != c
    ensures r.None? ==> forall k :: 0 <= k < |s| ==> s[k] != c
  {
    if s == [] then None
    else if s[|s| - 1] == c then Some(|s| - 1)
    else LastIndexOf(s[..|s| - 1], c)
  }

  /** `w` is matched by `\[.*\]` or `\[.*?\]` (or the brace forms) under `re.DOTALL`. */
  predicate Delimited(w: string, open: char, close: char)
  {
    |w| >= 2 && w[0] == open && w[|w| - 1] == close
  }

  /** The span `s[start..end]` that `re.search(r'\[.*?\]', s, re.DOTALL)` matches. */
  function ArraySpan(s: string): Option<(nat, nat)>
  {
    match IndexOf(s, '[', 0)
    case None => None
    case Some(i) =>
      match IndexOf(s, ']', i + 1)
      case None => None
      case Some(j) => Some((i, j + 1))
  }

  /** The span `s[start..end]` that `re.search(r'\{.*\}', s, re.DOTALL)` matches. */
  function ObjectSpan(s: string): Option<(nat, nat)>
  {
    match IndexOf(s, '{', 0)
    case None => None
    case Some(i) =>
      match LastIndexOf(s, '}')
      case None => None
      case Some(j) => if i < j then Some((i, j + 1)) else None
  }

  /** `json_match.group()` for the array pattern, `None` when nothing matches. */
  function ExtractArray(s: string): Option<string>
  {
    match ArraySpan(s)
    case None => None
    case Some((i, j)) => if i <= j <= |s| then Some(s[i..j]) else None
  }

  /** `json_match.group()` for the object pattern, `None` when nothing matches. */
  function ExtractObject(s: string): Option<string>
  {
    match ObjectSpan(s)
    case None => None
    case Some((i, j)) => if i <= j <= |s| then Some(s[i..j]) else None
  }

  /**
   * The array search is `re.search` with a lazy pattern: the match starts as
   * far left as any match can, and is the shortest match at that start; no
   * match means no substring opens with `[` and later closes with `]`.
   */
  lemma ArraySpanIsLazySearch(s: string)
    ensures ArraySpan(s).None? <==> forall p, q :: 0 <= p <= q <= |s| ==> !Delimited(s[p..q], '[', ']')
    ensures ArraySpan(s).Some? ==>
      var (p, q) := ArraySpan(s).value;
      && p <= q <= |s| && Delimited(s[p..q], '[', ']')
      && (forall p', q' :: 0 <= p' <= q' <= |s| && Delimited(s[p'..q'], '[', ']') ==> p <= p')
      && (forall q' :: p <= q' < q ==> !Delimited(s[p..q'], '[', ']'))
  {
    match IndexOf(s, '[', 0)
    case None =>
      forall p, q | 0 <= p <= q <= |s|
        ensures !Delimited(s[p..q], '[', ']')
      {
        if q - p >= 2 {
          assert s[p..q][0] == s[p];
        }
      }
    case Some(i) =>
      match IndexOf(s, ']', i + 1)
      case None =>
        forall p, q | 0 <= p <= q <= |s|
          ensures !Delimited(s[p..q], '[', ']')
        {
          if q - p >= 2 {
            assert s[p..q][0] == s[p] && s[p..q][q - p - 1] == s[q - 1];
          }
        }
      case Some(j) =>
        assert s[i..j + 1][0] == s[i] && s[i..j + 1][j - i] == s[j];
        forall p', q' | 0 <= p' <= q' <= |s| && Delimited(s[p'..q'], '[', ']')
          ensures i <= p'
        {
          assert s[p'..q'][0] == s[p'];
        }
        forall q' | i <= q' < j + 1
          ensures !Delimited(s[i..q'], '[', ']')
        {
          if q' - i >= 2 {
            assert s[i..q'][q' - i - 1] == s[q' - 1];
          }
        }
        assert ArraySpan(s) == Some((i, j + 1));
        assert exists p, q :: 0 <= p <= q <= |s| && Delimited(s[p..q], '[', ']');
  }

  /**
   * The object search is `re.search` with a greedy pattern: the match
   * starts as far left as any match can, and is the longest match at that
   * start; no match means no substring opens with `{` and later closes with
   * `}`.
   */
  lemma ObjectSpanIsGreedySearch(s: string)
    ensures ObjectSpan(s).None? <==> forall p, q :: 0 <= p <= q <= |s| ==> !Delimited(s[p..q], '{', '}')
    ensures ObjectSpan(s).Some? ==>
      var (p, q) := ObjectSpan(s).value;
      && p <= q <= |s| && Delimited(s[p..q], '{', '}')
      && (forall p', q' :: 0 <= p' <= q' <= |s| && Delimited(s[p'..q'], '{', '}') ==> p <= p')
      && (forall q' :: q < q' <= |s| ==> !Delimited(s[p..q'], '{', '}'))
  {
    match IndexOf(s, '{', 0)
    case None =>
      forall p, q | 0 <= p <= q <= |s|
        ensures !Delimited(s[p..q], '{', '}')
      {
        if q - p >= 2 {
          assert s[p..q][0] == s[p];
        }
      }
    case Some(i) =>
      match LastIndexOf(s, '}')
      case None =>
        forall p, q | 0 <= p <= q <= |s|
          ensures !Delimited(s[p..q], '{', '}')
        {
          if q - p >= 2 {
            assert s[p..q][q - p - 1] == s[q - 1];
          }
        }
      case Some(j) =>
        if i < j {
          assert s[i..j + 1][0] == s[i] && s[i..j + 1][j - i] == s[j];
          forall p', q' | 0 <= p' <= q' <= |s| && Delimited(s[p'..q'], '{', '}')
            ensures i <= p'
          {
            assert s[p'..q'][0] == s[p'];
          }
          forall q' | j + 1 < q' <= |s|
            ensures !Delimited(s[i..q'], '{', '}')
          {
            assert s[i..q'][q' - i - 1] == s[q' - 1];
          }
          assert ObjectSpan(s) == Some((i, j + 1));
          assert exists p, q :: 0 <= p <= q <= |s| && Delimited(s[p..q], '{', '}');
        } else {
          forall p, q | 0 <= p <= q <= |s|
            ensures !Delimited(s[p..q], '{', '}')
          {
            if q - p >= 2 {
              assert s[p..q][0] == s[p] && s[p..q][q - p - 1] == s[q - 1];
            }
          }
        }
  }

  /**
   * A reply whose array holds an inner array is cut at the inner array's
   * `]`: whatever follows it, the outer array's own `]` included, is lost.
   */
  lemma NestedArrayIsCut(prose: string, head: string, inner: string, rest: string)
    requires forall k :: 0 <= k < |prose| ==> prose[k] != '['
    requires forall k :: 0 <= k < |head| ==> head[k] != ']'
    requires forall k :: 0 <= k < |inner| ==> inner[k] != ']'
    ensures ExtractArray(prose + "[" + head + "[" + inner + "]" + rest) == Some("[" + head + "[" + inner + "]")
  {
    var s := prose + "[" + head + "[" + inner + "]" + rest;
    var i := |prose|;
    var j := |prose| + 1 + |head| + 1 + |inner|;
    assert s[i] == '[';
    assert IndexOf(s, '[', 0) == Some(i);
    assert s[j] == ']';
    forall k | i + 1 <= k < j
      ensures s[k] != ']'
    {
      if k < i + 1 + |head| {
        assert s[k] == head[k - i - 1];
      } else if k > i + 1 + |head| {
        assert s[k] == inner[k - i - 2 - |head|];
      }
    }
    assert IndexOf(s, ']', i + 1) == Some(j);
    assert s[i..j + 1] == "[" + head + "[" + inner + "]";
  }

  /**
   * A reply holding one flat array after prose without `[` yields exactly
   * that array, whatever follows it.
   */
  lemma FlatArrayIsFound(prose: string, body: string, rest: string)
    requires forall k :: 0 <= k < |prose| ==> prose[k] != '['
    requires forall k :: 0 <= k < |body| ==> body[k] != ']'
    ensures ExtractArray(prose + "[" + body + "]" + rest) == Some("[" + body + "]")
  {
    var s := prose + "[" + body + "]" + rest;
    var i := |prose|;
    var j := |prose| + 1 + |body|;
    assert s[i] == '[';
    assert IndexOf(s, '[', 0) == Some(i);
    assert s[j] == ']';
    forall k | i + 1 <= k < j
      ensures s[k] != ']'
    {
      assert s[k] == body[k - i - 1];
    }
    assert IndexOf(s, ']', i + 1) == Some(j);
    assert s[i..j + 1] == "[" + body + "]";
  }

  /**
   * A reply holding an object between prose without `{` and a tail without
   * `}` yields the whole object, nested objects and all.
   */
  lemma WholeObjectIsFound(prose: string, body: string, tail: string)
    requires forall k :: 0 <= k < |prose| ==> prose[k] != '{'
    requires forall k :: 0 <= k < |tail| ==> tail[k] != '}'
    ensures ExtractObject(prose + "{" + body + "}" + tail) == Some("{" + body + "}")
  {
    var s := prose + "{" + body + "}" + tail;
    var i := |prose|;
    var j := |prose| + 1 + |body|;
    assert s[i] == '{';
    assert IndexOf(s, '{', 0) == Some(i);
    assert s[j] == '}';
    forall k | j < k < |s|
      ensures s[k] != '}'
    {
      assert s[k] == tail[k - j - 1];
    }
    LastIndexOfIsLast(s, '}', j);
    assert s[i..j + 1] == "{" + body + "}";
  }

  /** The position `j` holds `c` and none after it does, so it is the last one. */
  lemma {:induction false} LastIndexOfIsLast(s: string, c: char, j: nat)
    requires j < |s| && s[j] == c
    requires forall k :: j < k < |s| ==> s[k] != c
    ensures LastIndexOf(s, c) == Some(j)
  {
    if j < |s| - 1 {
      LastIndexOfIsLast(s[..|s| - 1], c, j);
    }
  }
}
