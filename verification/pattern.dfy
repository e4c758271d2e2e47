/**
  `s.replace(/OPEN(.*)CLOSE/, '$1')` for a literal opening string OPEN and a
  literal closing character CLOSE, with the JavaScript regular-expression
  semantics that matter here: the leftmost match wins, `.*` is greedy, `.`
  does not match a line terminator, and only the first match is replaced.
 */
module WrappedMatch {
  import opened Wrappers
  import opened TextOps

  predicate OpensAt(s: string, open: string, i: int) {
    0 <= i && i + |open| <= |s| && s[i..i + |open|] == open
  }

  /** `.*` can run from `start` up to `k`, where the literal `close` matches. */
  predicate ClosesAt(s: string, start: int, close: char, k: int) {
    0 <= start <= k < |s| && s[k] == close
    && forall t :: start <= t < k ==> !IsLineTerminator(s[t])
  }

  /** The pattern matches `s[i..k + 1]`. */
  predicate MatchAt(s: string, open: string, close: char, i: int, k: int) {
    OpensAt(s, open, i) && ClosesAt(s, i + |open|, close, k)
  }

  /** The match the engine reports: the leftmost start, and for it the longest match. */
  ghost predicate IsFirstMatch(s: string, open: string, close: char, i: int, k: int) {
    && MatchAt(s, open, close, i, k)
    && (forall i', k' :: 0 <= i' < i ==> !MatchAt(s, open, close, i', k'))
    && (forall k' :: MatchAt(s, open, close, i, k') ==> k' <= k)
  }

  /** First index at or after `start` holding a line terminator, or `|s|`. */
  function LineEnd(s: string, start: nat): (e: nat)
    requires start <= |s|
    ensures start <= e <= |s|
    ensures forall t :: start <= t < e ==> !IsLineTerminator(s[t])
    ensures e < |s| ==> IsLineTerminator(s[e])
    decreases |s| - start
  {
    if start == |s| || IsLineTerminator(s[start]) then start
    else LineEnd(s, start + 1)
  }

  /** Greatest index in `[lo, hi)` holding `c`. */
  function LastIndexIn(s: string, lo: nat, hi: nat, c: char): (r: Option<nat>)
    requires lo <= hi <= |s|
    ensures r.Some? ==> lo <= r.value < hi && s[r.value] == c
                        && forall t :: r.value < t < hi ==> s[t] != c
    ensures r.None? ==> forall t :: lo <= t < hi ==> s[t] != c
    decreases hi - lo
  {
    if hi == lo then None
    else if s[hi - 1] == c then Some(hi - 1)
    else LastIndexIn(s, lo, hi - 1, c)
  }

  /** Where a greedy `.*CLOSE` starting at `start` ends, if it matches at all. */
  function GreedyClose(s: string, start: nat, close: char): (r: Option<nat>)
    requires start <= |s|
    ensures r.Some? ==> ClosesAt(s, start, close, r.value)
    ensures r.Some? ==> forall k :: ClosesAt(s, start, close, k) ==> k <= r.value
    ensures r.None? ==> forall k :: !ClosesAt(s, start, close, k)
  {
    var e := LineEnd(s, start);
    // the closing literal may itself sit on the terminator that stops `.*`
    LastIndexIn(s, start, if e < |s| then e + 1 else e, close)
  }

  /** The leftmost match starting at or after `from`, with its greedy end. */
  function FindMatch(s: string, open: string, close: char, from: nat): (r: Option<(nat, nat)>)
    ensures r.Some? ==> from <= r.value.0 && MatchAt(s, open, close, r.value.0, r.value.1)
    ensures r.Some? ==> forall i, k :: from <= i < r.value.0 ==> !MatchAt(s, open, close, i, k)
    ensures r.Some? ==> forall k :: MatchAt(s, open, close, r.value.0, k) ==> k <= r.value.1
    ensures r.None? ==> forall i, k :: from <= i ==> !MatchAt(s, open, close, i, k)
    decreases |s| - from
  {
    if from >= |s| then None
    else if OpensAt(s, open, from) then
      match GreedyClose(s, from + |open|, close)
      case Some(k) => Some((from, k))
      case None => FindMatch(s, open, close, from + 1)
    else FindMatch(s, open, close, from + 1)
  }

  /**
    `s.replace(/OPEN(.*)CLOSE/, '$1')`: when the pattern matches, the
    leftmost, longest match is replaced by the text between its delimiters;
    otherwise `s` is returned unchanged.
   */
  function ReplaceWrapped(s: string, open: string, close: char): (r: string)
    ensures (forall i, k :: !MatchAt(s, open, close, i, k)) ==> r == s
    ensures forall i, k :: IsFirstMatch(s, open, close, i, k) ==> r == s[..i] + s[i + |open|..k] + s[k + 1..]
  {
    match FindMatch(s, open, close, 0)
    case None => s
    case Some((i, k)) => s[..i] + s[i + |open|..k] + s[k + 1..]
  }

  /**
    For `w1 + OPEN + u + CLOSE + w2` with whitespace padding, the replacement
    strips exactly the delimiters.
   */
  lemma ReplaceWrappedPadded(w1: string, open: string, u: string, close: char, w2: string)
    requires AllWhitespace(w1) && AllWhitespace(w2)
    requires |open| > 0 && !IsWhitespace(open[0]) && !IsWhitespace(close)
    requires SingleLine(u)
    ensures ReplaceWrapped(w1 + open + u + [close] + w2, open, close) == w1 + u + w2
  {
    var s := w1 + open + u + [close] + w2;
    var i := |w1|;
    var k := |w1| + |open| + |u|;
    assert s[..i] == w1 && s[i + |open|..k] == u && s[k + 1..] == w2;
    PaddedMatch(w1, open, u, close, w2);
    NoEarlierOpen(w1, open, s);
    NoLaterClose(s, open, close, i, k, w2);
    ReplaceAtLeftmostLongest(s, open, close, i, k);
  }

  lemma ReplaceAtLeftmostLongest(s: string, open: string, close: char, i: int, k: int)
    requires MatchAt(s, open, close, i, k)
    requires forall i' :: 0 <= i' < i ==> !OpensAt(s, open, i')
    requires forall k' :: MatchAt(s, open, close, i, k') ==> k' <= k
    ensures ReplaceWrapped(s, open, close) == s[..i] + s[i + |open|..k] + s[k + 1..]
  {
    assert IsFirstMatch(s, open, close, i, k);
  }

  lemma PaddedMatch(w1: string, open: string, u: string, close: char, w2: string)
    requires SingleLine(u)
    ensures MatchAt(w1 + open + u + [close] + w2, open, close, |w1|, |w1| + |open| + |u|)
  {
    var s := w1 + open + u + [close] + w2;
    var i := |w1|;
    assert s[i..i + |open|] == open;
    forall t | i + |open| <= t < i + |open| + |u|
      ensures !IsLineTerminator(s[t])
    {
      assert s[t] == u[t - i - |open|];
    }
  }

  lemma NoEarlierOpen(w1: string, open: string, s: string)
    requires AllWhitespace(w1) && |open| > 0 && !IsWhitespace(open[0])
    requires |w1| <= |s| && s[..|w1|] == w1
    ensures forall i' :: 0 <= i' < |w1| ==> !OpensAt(s, open, i')
  {
    forall i' | 0 <= i' < |w1|
      ensures !OpensAt(s, open, i')
    {
      assert IsWhitespace(s[..|w1|][i']);
      assert i' + |open| <= |s| ==> s[i'..i' + |open|][0] == s[i'];
    }
  }

  lemma NoLaterClose(s: string, open: string, close: char, i: int, k: int, w2: string)
    requires AllWhitespace(w2) && !IsWhitespace(close)
    requires 0 <= k < |s| && s[k + 1..] == w2
    ensures forall k' :: MatchAt(s, open, close, i, k') ==> k' <= k
  {
  }
}
