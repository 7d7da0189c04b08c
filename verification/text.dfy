/**
 The three string operations of Python that the command templating relies on:
 the substring test `pat in s`, `s.count(pat)` and `s.replace(pat, rep)`.
 Matches are found left to right and never overlap, and an empty pattern
 matches before every character and at the end, as in Python.
 */
module Text {

  /** `pat` is a prefix of `s`. */
  predicate IsPrefix(pat: string, s: string) {
    |pat| <= |s| && s[..|pat|] == pat
  }

  /** `pat` occurs in `s` starting at index `i`. */
  predicate OccursAt(s: string, pat: string, i: int) {
    0 <= i && i + |pat| <= |s| && s[i..i + |pat|] == pat
  }

  /** Python's `pat in s`, scanning `s` from the left. */
  predicate Contains(s: string, pat: string)
    decreases |s|
  {
    IsPrefix(pat, s) || (|s| > 0 && Contains(s[1..], pat))
  }

  /** Python's `s.count(pat)`: the number of non-overlapping matches. */
  function Count(s: string, pat: string): nat
    decreases |s|
  {
    if |pat| == 0 then |s| + 1
    else if |s| == 0 then 0
    else if IsPrefix(pat, s) then 1 + Count(s[|pat|..], pat)
    else Count(s[1..], pat)
  }

  /** Python's `s.replace(pat, rep)`: every non-overlapping match, taken from
      the left, is replaced by `rep`; the replacement text is not rescanned. */
  function ReplaceAll(s: string, pat: string, rep: string): string
    decreases |s|
  {
    if |pat| == 0 then
      if |s| == 0 then rep else rep + [s[0]] + ReplaceAll(s[1..], pat, rep)
    else if |s| == 0 then []
    else if IsPrefix(pat, s) then rep + ReplaceAll(s[|pat|..], pat, rep)
    else [s[0]] + ReplaceAll(s[1..], pat, rep)
  }

  /** Every counted match changes the length by `|rep| - |pat|`. */
  lemma {:induction false} ReplaceLength(s: string, pat: string, rep: string)
    ensures |ReplaceAll(s, pat, rep)| == |s| + Count(s, pat) * (|rep| - |pat|)
    decreases |s|
  {
    var d := |rep| - |pat|;
    if |pat| == 0 {
      if |s| > 0 {
        var rest := ReplaceAll(s[1..], pat, rep);
        assert ReplaceAll(s, pat, rep) == rep + [s[0]] + rest;
        ReplaceLength(s[1..], pat, rep);
        Distribute(|s|, 1, d);
      }
    } else if |s| > 0 {
      if IsPrefix(pat, s) {
        var tail := s[|pat|..];
        assert ReplaceAll(s, pat, rep) == rep + ReplaceAll(tail, pat, rep);
        assert Count(s, pat) == 1 + Count(tail, pat);
        ReplaceLength(tail, pat, rep);
        Distribute(1, Count(tail, pat), d);
      } else {
        assert ReplaceAll(s, pat, rep) == [s[0]] + ReplaceAll(s[1..], pat, rep);
        ReplaceLength(s[1..], pat, rep);
      }
    }
  }

  lemma Distribute(a: int, b: int, d: int)
    ensures (a + b) * d == a * d + b * d
  {
  }

  /** The scanning test agrees with the positional definition of a match. */
  lemma {:induction false} ContainsIff(s: string, pat: string)
    ensures Contains(s, pat) <==> exists i :: OccursAt(s, pat, i)
    decreases |s|
  {
    if IsPrefix(pat, s) {
      assert OccursAt(s, pat, 0);
    } else if |s| > 0 {
      ContainsIff(s[1..], pat);
      if Contains(s[1..], pat) {
        var i :| OccursAt(s[1..], pat, i);
        assert s[1..][i..i + |pat|] == s[i + 1..i + 1 + |pat|];
        assert OccursAt(s, pat, i + 1);
      }
      if i :| OccursAt(s, pat, i) {
        assert i != 0;
        assert s[1..][i - 1..i - 1 + |pat|] == s[i..i + |pat|];
        assert OccursAt(s[1..], pat, i - 1);
      }
    }
  }

  /** A pattern is found exactly when it is counted at least once. */
  lemma {:induction false} CountPositiveIff(s: string, pat: string)
    ensures Count(s, pat) > 0 <==> Contains(s, pat)
    decreases |s|
  {
    if |pat| > 0 && |s| > 0 && !IsPrefix(pat, s) {
      CountPositiveIff(s[1..], pat);
    }
  }

  /** Replacing a pattern that does not occur leaves the string as it is. */
  lemma {:induction false} ReplaceAbsent(s: string, pat: string, rep: string)
    requires !Contains(s, pat)
    ensures ReplaceAll(s, pat, rep) == s
    decreases |s|
  {
    if |s| > 0 {
      ReplaceAbsent(s[1..], pat, rep);
    }
  }

  /** Replacing a pattern by itself leaves the string as it is. */
  lemma {:induction false} ReplaceByItself(s: string, pat: string)
    ensures ReplaceAll(s, pat, pat) == s
    decreases |s|
  {
    if |pat| == 0 {
      if |s| > 0 {
        ReplaceByItself(s[1..], pat);
      }
    } else if |s| > 0 {
      if IsPrefix(pat, s) {
        ReplaceByItself(s[|pat|..], pat);
        assert s == pat + s[|pat|..];
      } else {
        ReplaceByItself(s[1..], pat);
      }
    }
  }

  /** `replace` changes a string exactly when the pattern occurs in it and the
      replacement differs from the pattern. */
  lemma ReplaceUnchangedIff(s: string, pat: string, rep: string)
    ensures ReplaceAll(s, pat, rep) == s <==> (!Contains(s, pat) || rep == pat)
  {
    if !Contains(s, pat) {
      ReplaceAbsent(s, pat, rep);
    } else if rep == pat {
      ReplaceByItself(s, pat);
    } else if |rep| != |pat| {
      CountPositiveIff(s, pat);
      ReplaceLength(s, pat, rep);
      ProductNonZero(Count(s, pat), |rep| - |pat|);
    } else {
      ReplaceSameLengthChanges(s, pat, rep);
    }
  }

  lemma ProductNonZero(c: int, d: int)
    requires c != 0 && d != 0
    ensures c * d != 0
  {
  }

  lemma {:induction false} ReplaceSameLengthChanges(s: string, pat: string, rep: string)
    requires Contains(s, pat)
    requires |rep| == |pat| && rep != pat
    ensures ReplaceAll(s, pat, rep) != s
    decreases |s|
  {
    var r := ReplaceAll(s, pat, rep);
    if IsPrefix(pat, s) {
      assert r[..|pat|] == rep;
    } else {
      ReplaceSameLengthChanges(s[1..], pat, rep);
      assert r[1..] == ReplaceAll(s[1..], pat, rep);
    }
  }

  /** The whole string being one match gives the replacement alone. */
  lemma ReplaceWhole(pat: string, rep: string)
    requires |pat| > 0
    ensures ReplaceAll(pat, pat, rep) == rep
  {
    assert IsPrefix(pat, pat);
    assert pat[|pat|..] == [];
  }

  /** Text free of the pattern's first character is passed over unchanged,
      and the match that follows it is replaced. */
  lemma {:induction false} ReplaceAfterHeadFree(p: string, pat: string, rep: string)
    requires |pat| > 0 && pat[0] !in p
    ensures ReplaceAll(p + pat, pat, rep) == p + rep
    decreases |p|
  {
    if |p| == 0 {
      assert p + pat == pat;
      ReplaceWhole(pat, rep);
    } else {
      var s := p + pat;
      assert s[0] != pat[0];
      assert s[1..] == p[1..] + pat;
      ReplaceAfterHeadFree(p[1..], pat, rep);
    }
  }

  /** When the first match of `pat` in `p + pat + s` is the one after `p`,
      `replace` keeps `p`, replaces that match and carries on in `s`. */
  lemma {:induction false} ReplaceFirstMatch(p: string, pat: string, rep: string, s: string)
    requires |pat| > 0 && !Contains(p + pat[..|pat| - 1], pat)
    ensures ReplaceAll(p + pat + s, pat, rep) == p + rep + ReplaceAll(s, pat, rep)
    decreases |p|
  {
    if |p| == 0 {
      assert p + pat + s == pat + s;
      ReplaceAtStart(pat, rep, s);
    } else {
      var t := p + pat + s;
      var rest := p[1..];
      var r := ReplaceAll(s, pat, rep);
      NoMatchAtStart(p, pat, s);
      ContainsOfTail(p + pat[..|pat| - 1], pat);
      assert (p + pat[..|pat| - 1])[1..] == rest + pat[..|pat| - 1];
      calc {
        ReplaceAll(t, pat, rep);
      == { ReplacePastFirst(t, pat, rep); }
        [t[0]] + ReplaceAll(t[1..], pat, rep);
      == { assert t[0] == p[0] && t[1..] == rest + pat + s;
           ReplaceFirstMatch(rest, pat, rep, s); }
        [p[0]] + (rest + rep + r);
      == { ConsAgain(p, rep, r); }
        p + rep + r;
      }
    }
  }

  lemma ConsAgain(p: string, a: string, b: string)
    requires |p| > 0
    ensures [p[0]] + (p[1..] + a + b) == p + a + b
  {
    assert p == [p[0]] + p[1..];
  }

  lemma ReplaceAtStart(pat: string, rep: string, s: string)
    requires |pat| > 0
    ensures ReplaceAll(pat + s, pat, rep) == rep + ReplaceAll(s, pat, rep)
  {
    var t := pat + s;
    assert IsPrefix(pat, t) by {
      assert t[..|pat|] == pat;
    }
    assert t[|pat|..] == s;
  }

  lemma ReplacePastFirst(t: string, pat: string, rep: string)
    requires |pat| > 0 && |t| > 0 && !IsPrefix(pat, t)
    ensures ReplaceAll(t, pat, rep) == [t[0]] + ReplaceAll(t[1..], pat, rep)
  {
  }

  lemma ContainsOfTail(t: string, pat: string)
    requires |t| > 0 && !Contains(t, pat)
    ensures !Contains(t[1..], pat)
  {
  }

  lemma NoMatchAtStart(p: string, pat: string, s: string)
    requires |p| > 0 && |pat| > 0 && !Contains(p + pat[..|pat| - 1], pat)
    ensures !IsPrefix(pat, p + pat + s)
  {
    var head := p + pat[..|pat| - 1];
    var t := p + pat + s;
    assert !IsPrefix(pat, head);
    assert |head| >= |pat|;
    assert forall k :: 0 <= k < |pat| ==> head[k] == t[k];
    assert head[..|pat|] == t[..|pat|];
  }

  /** A string missing some character of the pattern cannot contain it. */
  lemma MissingCharNoMatch(t: string, pat: string, k: int)
    requires 0 <= k < |pat| && pat[k] !in t
    ensures !Contains(t, pat)
  {
    forall i | 0 <= i && i + |pat| <= |t|
      ensures !OccursAt(t, pat, i)
    {
      assert t[i..i + |pat|][k] == t[i + k];
    }
    ContainsIff(t, pat);
  }

  /** A string in which the pattern's first character never appears cannot
      contain the pattern. */
  lemma WithoutHeadNoMatch(t: string, pat: string)
    requires |pat| > 0 && pat[0] !in t
    ensures !Contains(t, pat)
  {
    forall i | 0 <= i && i + |pat| <= |t|
      ensures !OccursAt(t, pat, i)
    {
      assert t[i..i + |pat|][0] == t[i] != pat[0];
    }
    ContainsIff(t, pat);
  }

  /** A match of `pat` in `s + t` that lay neither in `s` nor in `t` would
      have to cover `t`'s first character, so a first character foreign to
      `pat` keeps the concatenation free of matches. */
  lemma NoMatchAcrossSeparator(s: string, t: string, pat: string)
    requires !Contains(s, pat) && !Contains(t, pat)
    requires |t| > 0 && t[0] !in pat
    ensures !Contains(s + t, pat)
  {
    ContainsIff(s, pat);
    ContainsIff(t, pat);
    var u := s + t;
    forall i | 0 <= i && i + |pat| <= |u|
      ensures !OccursAt(u, pat, i)
    {
      if i + |pat| <= |s| {
        SliceOfLeft(s, t, i, i + |pat|);
        assert !OccursAt(s, pat, i);
      } else if i >= |s| {
        SliceOfRight(s, t, i, i + |pat|);
        assert !OccursAt(t, pat, i - |s|);
      } else {
        assert u[i..i + |pat|][|s| - i] == t[0] != pat[|s| - i];
      }
    }
    ContainsIff(u, pat);
  }

  lemma SliceOfLeft(s: string, t: string, i: int, j: int)
    requires 0 <= i <= j <= |s|
    ensures (s + t)[i..j] == s[i..j]
  {
    assert forall k :: 0 <= k < j - i ==> (s + t)[i..j][k] == s[i..j][k];
  }

  lemma SliceOfRight(s: string, t: string, i: int, j: int)
    requires |s| <= i <= j <= |s| + |t|
    ensures (s + t)[i..j] == t[i - |s|..j - |s|]
  {
    assert forall k :: 0 <= k < j - i ==> (s + t)[i..j][k] == t[i - |s|..j - |s|][k];
  }
}
