/** Python's `str.replace(old, new)` and `str.count(old)`: occurrences are found left to
    right and do not overlap; an empty pattern matches before every character and at the
    end (`"ab".replace("", "-") == "-a-b-"`). */
module PyStr {

  /** `pat` occurs in `s` starting at index `i`. */
  predicate At<T(==)>(s: seq<T>, pat: seq<T>, i: int) {
    0 <= i && i + |pat| <= |s| && s[i..i + |pat|] == pat
  }

  /** `pat in s` */
  predicate Contains<T(==)>(s: seq<T>, pat: seq<T>) {
    exists i :: 0 <= i <= |s| - |pat| && At(s, pat, i)
  }

  /** `s.replace(pat, rep)` */
  function Replace<T(==)>(s: seq<T>, pat: seq<T>, rep: seq<T>): seq<T>
    decreases |s|
  {
    if pat == [] then
      (if s == [] then rep else rep + [s[0]] + Replace(s[1..], pat, rep))
    else if |s| < |pat| then s
    else if s[..|pat|] == pat then rep + Replace(s[|pat|..], pat, rep)
    else [s[0]] + Replace(s[1..], pat, rep)
  }

  /** One step of `Replace` where the pattern starts the text. */
  lemma ReplaceMatch<T>(s: seq<T>, pat: seq<T>, rep: seq<T>)
    requires pat != [] && |pat| <= |s| && s[..|pat|] == pat
    ensures Replace(s, pat, rep) == rep + Replace(s[|pat|..], pat, rep)
  {
  }

  /** One step of `Replace` where it does not. */
  lemma ReplaceMiss<T>(s: seq<T>, pat: seq<T>, rep: seq<T>)
    requires pat != [] && |pat| <= |s| && s[..|pat|] != pat
    ensures Replace(s, pat, rep) == [s[0]] + Replace(s[1..], pat, rep)
  {
  }

  /** `s.count(pat)`: the number of occurrences `Replace` rewrites. */
  function Count<T(==)>(s: seq<T>, pat: seq<T>): nat
    decreases |s|
  {
    if pat == [] then |s| + 1
    else if |s| < |pat| then 0
    else if s[..|pat|] == pat then 1 + Count(s[|pat|..], pat)
    else Count(s[1..], pat)
  }

  /** Each rewritten occurrence changes the length by `|rep| - |pat|`, and nothing else
      changes it. */
  lemma {:induction false} ReplaceLength<T>(s: seq<T>, pat: seq<T>, rep: seq<T>)
    ensures |Replace(s, pat, rep)| == |s| + Count(s, pat) * (|rep| - |pat|)
    decreases |s|
  {
    var d := |rep| - |pat|;
    if pat == [] {
      if s != [] {
        ReplaceLength(s[1..], pat, rep);
        MulSucc(|s| - 1 + 1, d);
      }
    } else if |s| < |pat| {
    } else if s[..|pat|] == pat {
      ReplaceLength(s[|pat|..], pat, rep);
      MulSucc(Count(s[|pat|..], pat), d);
    } else {
      ReplaceLength(s[1..], pat, rep);
    }
  }

  lemma MulSucc(c: int, d: int)
    ensures (c + 1) * d == c * d + d
  {
  }

  /** A match in a suffix is a match in the whole string, shifted. */
  lemma AtShift<T>(s: seq<T>, pat: seq<T>, k: nat, i: int)
    requires k <= |s|
    ensures At(s[k..], pat, i) <==> (i >= 0 && At(s, pat, i + k))
  {
    if i >= 0 && i + |pat| <= |s| - k {
      assert s[k..][i..i + |pat|] == s[i + k..i + k + |pat|];
    }
  }

  /** `s.count(pat) == 0` exactly when `pat not in s`. */
  lemma {:induction false} CountZeroIff<T>(s: seq<T>, pat: seq<T>)
    ensures Count(s, pat) == 0 <==> !Contains(s, pat)
    decreases |s|
  {
    if pat == [] {
      assert At(s, pat, 0);
    } else if |s| < |pat| {
      forall i ensures !At(s, pat, i) { }
    } else if s[..|pat|] == pat {
      assert At(s, pat, 0);
    } else {
      CountZeroIff(s[1..], pat);
      if Contains(s, pat) {
        var i :| 0 <= i <= |s| - |pat| && At(s, pat, i);
        assert i != 0;
        AtShift(s, pat, 1, i - 1);
        assert At(s[1..], pat, i - 1);
      } else {
        forall i ensures !At(s[1..], pat, i) {
          AtShift(s, pat, 1, i);
        }
      }
    }
  }

  /** Text in which `pat` does not occur is left as it is. */
  lemma {:induction false} ReplaceAbsent<T>(s: seq<T>, pat: seq<T>, rep: seq<T>)
    requires !Contains(s, pat)
    ensures Replace(s, pat, rep) == s
    decreases |s|
  {
    if pat == [] {
      assert At(s, pat, 0);
    } else if |s| < |pat| {
    } else {
      assert !At(s, pat, 0);
      forall i ensures !At(s[1..], pat, i) {
        AtShift(s, pat, 1, i);
      }
      ReplaceAbsent(s[1..], pat, rep);
      assert s == [s[0]] + s[1..];
    }
  }

  lemma NonZeroProduct(a: int, b: int)
    requires a != 0 && b != 0
    ensures a * b != 0
  {
  }

  /** The converse: when `pat` occurs and `rep` has another length, the text changes. */
  lemma ReplacePresentChanges<T>(s: seq<T>, pat: seq<T>, rep: seq<T>)
    requires Contains(s, pat) && |rep| != |pat|
    ensures Replace(s, pat, rep) != s
  {
    CountZeroIff(s, pat);
    ReplaceLength(s, pat, rep);
    NonZeroProduct(Count(s, pat), |rep| - |pat|);
  }
}
