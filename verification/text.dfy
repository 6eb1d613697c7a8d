/**
 * Python's `str.replace(old, new)` on strings, and the facts about it the
 * document renderer needs: text without the pattern is copied unchanged, and
 * replacement distributes over a concatenation no occurrence straddles.
 */
module Text {

  /** True iff `p` occurs in `s` starting at index `i`. */
  predicate At(s: string, p: string, i: int) {
    0 <= i && i + |p| <= |s| && s[i..i + |p|] == p
  }

  /** True iff `p` occurs somewhere in `s`. */
  predicate Occurs(s: string, p: string) {
    exists i | 0 <= i <= |s| :: At(s, p, i)
  }

  /** True iff no occurrence of `p` in `v + w` starts in `v` and ends in `w`. */
  predicate NoStraddle(v: string, w: string, p: string) {
    forall i | 0 <= i < |v| < i + |p| :: !At(v + w, p, i)
  }

  /**
   * `s.replace(p, r)`: scanning from the left, every occurrence of `p` is
   * replaced by `r` and the scan resumes after it, so occurrences never overlap
   * and `r` itself is never rescanned. The pattern alone becomes the
   * replacement, and replacing the pattern by itself changes nothing.
   */
  function Replace(s: string, p: string, r: string): (res: string)
    requires p != []
    ensures s == p ==> res == r
    ensures r == p ==> res == s
    decreases |s|
  {
    if |s| < |p| then s
    else if s[..|p|] == p then
      assert s == p ==> s[|p|..] == [];
      assert r == p ==> s[..|p|] + s[|p|..] == s;
      r + Replace(s[|p|..], p, r)
    else
      assert [s[0]] + s[1..] == s;
      [s[0]] + Replace(s[1..], p, r)
  }

  /** Text in which the pattern does not occur is copied unchanged. */
  lemma {:induction false} ReplaceAbsent(s: string, p: string, r: string)
    requires p != [] && !Occurs(s, p)
    ensures Replace(s, p, r) == s
    decreases |s|
  {
    if |s| >= |p| {
      assert !At(s, p, 0);
      assert s[..|p|] != p;
      forall i
        ensures !At(s[1..], p, i)
      {
        if At(s[1..], p, i) {
          assert s[1..][i..i + |p|] == s[i + 1..i + 1 + |p|];
          assert At(s, p, i + 1);
        }
      }
      ReplaceAbsent(s[1..], p, r);
      assert [s[0]] + s[1..] == s;
    }
  }

  /** Dropping a prefix of `v` keeps every remaining occurrence from straddling. */
  lemma NoStraddleSuffix(v: string, w: string, p: string, k: int)
    requires NoStraddle(v, w, p) && 0 <= k <= |v|
    ensures NoStraddle(v[k..], w, p)
  {
    var s := v + w;
    var v' := v[k..];
    assert s[k..] == v' + w;
    forall i | 0 <= i < |v'| < i + |p|
      ensures !At(v' + w, p, i)
    {
      assert !At(s, p, i + k);
      if i + |p| <= |v' + w| {
        assert (v' + w)[i..i + |p|] == s[i + k..i + k + |p|];
      }
    }
  }

  /** Replacement distributes over a concatenation that no occurrence straddles. */
  lemma {:induction false} ReplaceSplit(v: string, w: string, p: string, r: string)
    requires p != [] && NoStraddle(v, w, p)
    ensures Replace(v + w, p, r) == Replace(v, p, r) + Replace(w, p, r)
    decreases |v|
  {
    var s := v + w;
    if v == [] {
      assert s == w;
    } else if |s| < |p| {
      assert Replace(v, p, r) == v && Replace(w, p, r) == w;
    } else if s[..|p|] == p {
      assert At(s, p, 0);
      assert v[..|p|] == p;
      NoStraddleSuffix(v, w, p, |p|);
      assert s[|p|..] == v[|p|..] + w;
      ReplaceSplit(v[|p|..], w, p, r);
    } else {
      NoStraddleSuffix(v, w, p, 1);
      assert s[1..] == v[1..] + w;
      ReplaceSplit(v[1..], w, p, r);
      if |v| < |p| {
        assert Replace(v[1..], p, r) == v[1..];
        assert [v[0]] + v[1..] == v;
      } else {
        assert v[..|p|] == s[..|p|];
      }
    }
  }

  /** A character outside the pattern at the start of `w` blocks every straddling occurrence. */
  lemma GuardBefore(v: string, w: string, p: string)
    requires w != [] && w[0] !in p
    ensures NoStraddle(v, w, p)
  {
    forall i | 0 <= i < |v| < i + |p|
      ensures !At(v + w, p, i)
    {
      if i + |p| <= |v + w| {
        var slice := (v + w)[i..i + |p|];
        assert slice[|v| - i] == w[0];
      }
    }
  }

  /** A character outside the pattern at the end of `v` blocks every straddling occurrence. */
  lemma GuardAfter(v: string, w: string, p: string)
    requires v != [] && v[|v| - 1] !in p
    ensures NoStraddle(v, w, p)
  {
    forall i | 0 <= i < |v| < i + |p|
      ensures !At(v + w, p, i)
    {
      if i + |p| <= |v + w| {
        var slice := (v + w)[i..i + |p|];
        assert slice[|v| - 1 - i] == v[|v| - 1];
      }
    }
  }

  /** A pattern absent from both halves and not straddling them is absent from the whole. */
  lemma ConcatAbsent(v: string, w: string, p: string)
    requires !Occurs(v, p) && !Occurs(w, p) && NoStraddle(v, w, p)
    ensures !Occurs(v + w, p)
  {
    forall i | 0 <= i <= |v + w|
      ensures !At(v + w, p, i)
    {
      if i + |p| <= |v| {
        assert !At(v, p, i);
        assert (v + w)[i..i + |p|] == v[i..i + |p|];
      } else if |v| <= i && i + |p| <= |v + w| {
        assert !At(w, p, i - |v|);
        assert (v + w)[i..i + |p|] == w[i - |v|..i - |v| + |p|];
      }
    }
  }

  /** Text none of whose characters is `c` has no occurrence of a pattern starting with `c`. */
  lemma AbsentChar(s: string, p: string, c: char)
    requires p != [] && p[0] == c && c !in s
    ensures !Occurs(s, p)
  {
    forall i | 0 <= i <= |s|
      ensures !At(s, p, i)
    {
      if i + |p| <= |s| {
        assert s[i..i + |p|][0] == s[i];
      }
    }
  }
}
