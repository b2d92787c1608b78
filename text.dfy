/** String predicates the handlers and the mail templates rely on. */
module Text {

  /** `s.endsWith(suffix)`, compared character by character (case-sensitive). */
  predicate EndsWith(s: string, suffix: string)
  {
    |suffix| <= |s| && s[|s| - |suffix|..] == suffix
  }

  /** `sub` occurs somewhere in `s`. */
  predicate Contains(s: string, sub: string)
  {
    exists i :: 0 <= i <= |s| && sub <= s[i..]
  }

  /** A string contains itself. */
  lemma ContainsSelf(s: string)
    ensures Contains(s, s)
  {
    assert s[0..] == s;
  }

  /** Whatever a string contains, it still contains with text appended. */
  lemma ContainsLeft(s: string, t: string, sub: string)
    requires Contains(s, sub)
    ensures Contains(s + t, sub)
  {
    var i :| 0 <= i <= |s| && sub <= s[i..];
    assert sub <= (s + t)[i..];
  }

  /** Whatever a string contains, it still contains with text prepended. */
  lemma ContainsRight(s: string, t: string, sub: string)
    requires Contains(t, sub)
    ensures Contains(s + t, sub)
  {
    var i :| 0 <= i <= |t| && sub <= t[i..];
    assert (s + t)[|s| + i..] == t[i..];
  }

  /** A string contains whatever is spliced into it. */
  lemma ContainsSplice(pre: string, sub: string, post: string)
    ensures Contains(pre + sub + post, sub)
  {
    ContainsSelf(sub);
    ContainsRight(pre, sub, sub);
    ContainsLeft(pre + sub, post, sub);
  }

  /** Containment is transitive: what a part contains, the whole contains. */
  lemma ContainsTransitive(s: string, part: string, sub: string)
    requires Contains(s, part) && Contains(part, sub)
    ensures Contains(s, sub)
  {
    var i :| 0 <= i <= |s| && part <= s[i..];
    var j :| 0 <= j <= |part| && sub <= part[j..];
    assert part == s[i..i + |part|];
    assert sub == part[j..j + |sub|];
    assert s[i + j..i + j + |sub|] == sub;
    assert sub <= s[i + j..];
  }

  /** Equal strings with equal tails have equal heads. */
  lemma CancelRight(s: string, s': string, t: string)
    requires s + t == s' + t
    ensures s == s'
  {
    assert s == (s + t)[..|s|];
    assert s' == (s' + t)[..|s'|];
  }

  /** Equal strings with equal heads have equal tails. */
  lemma CancelLeft(t: string, s: string, s': string)
    requires t + s == t + s'
    ensures s == s'
  {
    assert s == (t + s)[|t|..];
    assert s' == (t + s')[|t|..];
  }

  /** A run of `n` spaces, the indentation of the source's template literals. */
  function Spaces(n: nat): (r: string)
    ensures |r| == n && forall i :: 0 <= i < n ==> r[i] == ' '
  {
    seq(n, _ => ' ')
  }
}
