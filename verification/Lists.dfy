/** What filtering loops keep of a list. */
module Lists {

  /** `s` is `t` with some elements left out. */
  ghost predicate Subsequence<T>(s: seq<T>, t: seq<T>)
  {
    |s| == 0 || (|t| > 0 && ((s[|s| - 1] == t[|t| - 1] && Subsequence(s[..|s| - 1], t[..|t| - 1]))
                             || Subsequence(s, t[..|t| - 1])))
  }

  /** One element more in the long list, and possibly in the short one. */
  lemma SubsequenceOneMore<T>(s: seq<T>, t: seq<T>, x: T, keep: bool)
    requires Subsequence(s, t)
    ensures Subsequence(s + (if keep then [x] else []), t + [x])
  {
    assert (t + [x])[..|t|] == t && (s + [x])[..|s|] == s && s + [] == s;
  }
}
