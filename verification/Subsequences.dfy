/** What is left of a stream of words when some are lost on the way. */
module Subsequences {

  /** s is `of` with some of its elements left out. */
  predicate Subsequence<T(==)>(s: seq<T>, of: seq<T>) {
    if of == [] then s == []
    else
      var n := |of| - 1;
      Subsequence(s, of[..n]) || (s != [] && s[|s| - 1] == of[n] && Subsequence(s[..|s| - 1], of[..n]))
  }

  lemma {:induction false} AllLost<T>(of: seq<T>)
    ensures Subsequence([], of)
  {
    if of != [] {
      AllLost(of[..|of| - 1]);
    }
  }

  lemma {:induction false} NoneLost<T>(of: seq<T>)
    ensures Subsequence(of, of)
  {
    if of != [] {
      NoneLost(of[..|of| - 1]);
    }
  }

  /** One more element is offered, and lost or kept. */
  lemma OneMoreOffered<T>(s: seq<T>, of: seq<T>, x: T)
    requires Subsequence(s, of)
    ensures Subsequence(s, of + [x]) && Subsequence(s + [x], of + [x])
  {
    assert (of + [x])[..|of|] == of && (s + [x])[..|s|] == s;
  }

  /** Nothing is lost exactly when the lengths agree. */
  lemma {:induction false} FullLength<T>(s: seq<T>, of: seq<T>)
    requires Subsequence(s, of)
    ensures |s| <= |of|
    ensures |s| == |of| <==> s == of
  {
    if of != [] {
      var n := |of| - 1;
      if Subsequence(s, of[..n]) {
        FullLength(s, of[..n]);
      } else {
        FullLength(s[..|s| - 1], of[..n]);
        assert s == s[..|s| - 1] + [s[|s| - 1]] && of == of[..n] + [of[n]];
      }
    }
  }

  /** What is left of a stream in two parts. */
  lemma {:induction false} PartsLeft<T>(s: seq<T>, of: seq<T>, t: seq<T>, of': seq<T>)
    requires Subsequence(s, of) && Subsequence(t, of')
    ensures Subsequence(s + t, of + of')
    decreases |of'|
  {
    if of' == [] {
      assert s + t == s && of + of' == of;
    } else {
      var n := |of'| - 1;
      assert of + of' == of + of'[..n] + [of'[n]];
      if Subsequence(t, of'[..n]) {
        PartsLeft(s, of, t, of'[..n]);
        OneMoreOffered(s + t, of + of'[..n], of'[n]);
      } else {
        var t' := t[..|t| - 1];
        PartsLeft(s, of, t', of'[..n]);
        OneMoreOffered(s + t', of + of'[..n], of'[n]);
        assert s + t == s + t' + [of'[n]];
      }
    }
  }
}
