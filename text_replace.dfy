/** Python's `str.replace(old, new)` on text, and what it does when the pattern and
    the replacement differ only in their last character (as every entry of the
    migration table does). */
module TextReplace {

  /** `pat` occurs in `s` starting at index `p`. */
  predicate OccursAt(s: string, pat: string, p: int)
  {
    0 <= p && p + |pat| <= |s| && s[p..p + |pat|] == pat
  }

  /** `pat` occurs somewhere in `s` (Python's `pat in s`). */
  predicate Contains(s: string, pat: string)
  {
    exists p | 0 <= p <= |s| :: OccursAt(s, pat, p)
  }

  /** `str.replace` with no count: scan left to right and replace every leftmost,
      non-overlapping occurrence of `pat` by `rep`. An empty `pat` matches before every
      character and at the end, as in Python (`"ab".replace("", "-") == "-a-b-"`). */
  function ReplaceAll(s: string, pat: string, rep: string): (r: string)
    ensures |pat| == |rep| ==> |r| == |s|
    decreases |s|
  {
    if pat == [] then
      if s == [] then rep else rep + [s[0]] + ReplaceAll(s[1..], pat, rep)
    else if |s| < |pat| then s
    else if s[..|pat|] == pat then rep + ReplaceAll(s[|pat|..], pat, rep)
    else [s[0]] + ReplaceAll(s[1..], pat, rep)
  }

  /** `rep` is `pat` with its last character replaced by one that `pat` does not
      contain anywhere (`...@v2` to `...@v3`). */
  predicate BumpsLast(pat: string, rep: string)
  {
    |pat| > 0 && |rep| == |pat| && rep[..|pat| - 1] == pat[..|pat| - 1] && rep[|pat| - 1] !in pat
  }

  /** `r` is `s` with some characters overwritten by `c`, and nothing else changed. */
  predicate OnlyWrites(s: string, r: string, c: char)
  {
    |r| == |s| && forall i :: 0 <= i < |s| && r[i] != s[i] ==> r[i] == c
  }

  lemma OccursAtShift(s: string, pat: string, k: nat, p: int)
    requires k <= |s|
    ensures OccursAt(s[k..], pat, p) <==> p >= 0 && OccursAt(s, pat, p + k)
  {
    if p >= 0 && p + |pat| <= |s| - k {
      assert s[k..][p..p + |pat|] == s[p + k..p + k + |pat|];
    }
  }

  /** Every character in which `r` differs from `s` is `c` and closes an occurrence of
      `pat` in `s`. */
  predicate ChangesAtMatchEnds(s: string, r: string, pat: string, c: char)
  {
    |r| == |s| &&
    forall i :: 0 <= i < |s| && r[i] != s[i] ==> r[i] == c && OccursAt(s, pat, i - |pat| + 1)
  }

  /** Prepending the same character to both texts keeps `ChangesAtMatchEnds`. */
  lemma ChangesAtMatchEndsCons(x: char, t: string, rt: string, pat: string, c: char)
    requires ChangesAtMatchEnds(t, rt, pat, c)
    ensures ChangesAtMatchEnds([x] + t, [x] + rt, pat, c)
  {
    var s, r := [x] + t, [x] + rt;
    forall i | 0 <= i < |s| && r[i] != s[i]
      ensures r[i] == c && OccursAt(s, pat, i - |pat| + 1)
    {
      assert i > 0 && r[i] == rt[i - 1] && s[i] == t[i - 1];
      OccursAtShift(s, pat, 1, i - 1 - |pat| + 1);
    }
  }

  /** A last-character bump agrees with its pattern everywhere before the last index. */
  lemma BumpsLastKeepsPrefix(pat: string, rep: string)
    requires BumpsLast(pat, rep)
    ensures forall i :: 0 <= i < |pat| - 1 ==> rep[i] == pat[i]
  {
    forall i | 0 <= i < |pat| - 1
      ensures rep[i] == pat[i]
    {
      assert rep[i] == rep[..|pat| - 1][i];
      assert pat[i] == pat[..|pat| - 1][i];
    }
  }

  /** A change inside the prepended match can only be its last character, which
      closes the match at index 0. */
  lemma MatchHeadChange(t: string, rt: string, pat: string, rep: string, i: int)
    requires BumpsLast(pat, rep) && |rt| == |t|
    requires 0 <= i < |pat| && (rep + rt)[i] != (pat + t)[i]
    ensures (rep + rt)[i] == rep[|pat| - 1] && OccursAt(pat + t, pat, i - |pat| + 1)
  {
    BumpsLastKeepsPrefix(pat, rep);
    assert (rep + rt)[i] == rep[i] && (pat + t)[i] == pat[i];
    assert (pat + t)[..|pat|] == pat;
  }

  /** A change after the prepended match is a change of the rest, shifted. */
  lemma MatchTailChange(t: string, rt: string, pat: string, rep: string, i: int)
    requires BumpsLast(pat, rep)
    requires ChangesAtMatchEnds(t, rt, pat, rep[|pat| - 1])
    requires |pat| <= i < |pat| + |t| && (rep + rt)[i] != (pat + t)[i]
    ensures (rep + rt)[i] == rep[|pat| - 1] && OccursAt(pat + t, pat, i - |pat| + 1)
  {
    var n := |pat|;
    assert (rep + rt)[i] == rt[i - n] && (pat + t)[i] == t[i - n];
    assert (pat + t)[n..] == t;
    OccursAtShift(pat + t, pat, n, i - n - n + 1);
  }

  /** Prepending a match of `pat` to the input and its replacement to the output
      keeps `ChangesAtMatchEnds`. */
  lemma ChangesAtMatchEndsMatch(t: string, rt: string, pat: string, rep: string)
    requires BumpsLast(pat, rep)
    requires ChangesAtMatchEnds(t, rt, pat, rep[|pat| - 1])
    ensures ChangesAtMatchEnds(pat + t, rep + rt, pat, rep[|pat| - 1])
  {
    forall i | 0 <= i < |pat + t| && (rep + rt)[i] != (pat + t)[i]
      ensures (rep + rt)[i] == rep[|pat| - 1] && OccursAt(pat + t, pat, i - |pat| + 1)
    {
      if i < |pat| {
        MatchHeadChange(t, rt, pat, rep, i);
      } else {
        MatchTailChange(t, rt, pat, rep, i);
      }
    }
  }

  /** Every character `ReplaceAll` changes becomes the replacement's last character,
      and it sits at the last index of an occurrence of `pat` in the input. */
  lemma {:induction false} ReplaceAllChangesOnlyMatchEnds(s: string, pat: string, rep: string)
    requires BumpsLast(pat, rep)
    ensures ChangesAtMatchEnds(s, ReplaceAll(s, pat, rep), pat, rep[|pat| - 1])
    decreases |s|
  {
    var n := |pat|;
    if |s| < n {
    } else if s[..n] == pat {
      ReplaceAllChangesOnlyMatchEnds(s[n..], pat, rep);
      ChangesAtMatchEndsMatch(s[n..], ReplaceAll(s[n..], pat, rep), pat, rep);
      assert s == pat + s[n..];
    } else {
      ReplaceAllChangesOnlyMatchEnds(s[1..], pat, rep);
      ChangesAtMatchEndsCons(s[0], s[1..], ReplaceAll(s[1..], pat, rep), pat, rep[n - 1]);
      assert s == [s[0]] + s[1..];
    }
  }

  /** Some character of `r` in the span `[p, p + n)` is `c`. */
  predicate HitWithin(r: string, p: int, n: int, c: char)
  {
    exists j | p <= j < p + n :: 0 <= j < |r| && r[j] == c
  }

  /** The greedy scan leaves no occurrence of `pat` alone: inside the span of every
      occurrence in the input, the output holds the replacement's last character. */
  lemma {:induction false} ReplaceAllHitsEveryOccurrence(s: string, pat: string, rep: string)
    requires BumpsLast(pat, rep)
    ensures forall p :: OccursAt(s, pat, p) ==>
      HitWithin(ReplaceAll(s, pat, rep), p, |pat|, rep[|pat| - 1])
    decreases |s|
  {
    var n := |pat|;
    var c := rep[n - 1];
    var r := ReplaceAll(s, pat, rep);
    if |s| < n {
    } else if s[..n] == pat {
      var t := s[n..];
      var rt := ReplaceAll(t, pat, rep);
      ReplaceAllHitsEveryOccurrence(t, pat, rep);
      assert r == rep + rt;
      forall p | OccursAt(s, pat, p)
        ensures HitWithin(r, p, n, c)
      {
        if p < n {
          assert r[n - 1] == c;
        } else {
          OccursAtShift(s, pat, n, p - n);
          var j :| p - n <= j < p && 0 <= j < |rt| && rt[j] == c;
          assert r[j + n] == c;
        }
      }
    } else {
      var t := s[1..];
      var rt := ReplaceAll(t, pat, rep);
      ReplaceAllHitsEveryOccurrence(t, pat, rep);
      assert r == [s[0]] + rt;
      forall p | OccursAt(s, pat, p)
        ensures HitWithin(r, p, n, c)
      {
        assert p != 0;
        OccursAtShift(s, pat, 1, p - 1);
        var j :| p - 1 <= j < p - 1 + n && 0 <= j < |rt| && rt[j] == c;
        assert r[j + 1] == c;
      }
    }
  }

  /** A text that only had characters overwritten by `c` holds no occurrence of a
      `c`-free pattern that the original text did not already hold. */
  lemma NoNewOccurrence(s: string, r: string, c: char, key: string, p: int)
    requires OnlyWrites(s, r, c) && c !in key
    requires !OccursAt(s, key, p)
    ensures !OccursAt(r, key, p)
  {
    if 0 <= p && p + |key| <= |s| {
      var k :| 0 <= k < |key| && s[p..p + |key|][k] != key[k];
      assert r[p..p + |key|][k] == r[p + k] && s[p + k] != key[k];
    }
  }

  /** The positive form of `NoNewOccurrence`: an occurrence of a `c`-free pattern in
      the overwritten text was already in the original. */
  lemma OccurrenceWasThere(s: string, r: string, c: char, key: string, p: int)
    requires OnlyWrites(s, r, c) && c !in key
    requires OccursAt(r, key, p)
    ensures OccursAt(s, key, p)
  {
    forall k | 0 <= k < |key|
      ensures s[p..p + |key|][k] == key[k]
    {
      assert r[p + k] == r[p..p + |key|][k] == key[k];
    }
  }

  /** `NoNewOccurrence` at every position. */
  lemma NoNewContains(s: string, r: string, c: char, key: string)
    requires OnlyWrites(s, r, c) && c !in key
    requires !Contains(s, key)
    ensures !Contains(r, key)
  {
    forall p | 0 <= p <= |r|
      ensures !OccursAt(r, key, p)
    {
      NoNewOccurrence(s, r, c, key, p);
    }
  }

  /** Overwriting with the same character twice is overwriting with it once, and a
      text that differs after the first step still differs after the second. */
  lemma OnlyWritesTrans(a: string, b: string, d: string, c: char)
    requires OnlyWrites(a, b, c) && OnlyWrites(b, d, c)
    ensures OnlyWrites(a, d, c)
    ensures b != a ==> d != a
  {
    if b != a {
      var i :| 0 <= i < |a| && b[i] != a[i];
      assert d[i] == c != a[i];
    }
  }

  /** `ReplaceAll` with a last-character bump only overwrites characters with that
      new last character. */
  lemma ReplaceAllOnlyWrites(s: string, pat: string, rep: string)
    requires BumpsLast(pat, rep)
    ensures OnlyWrites(s, ReplaceAll(s, pat, rep), rep[|pat| - 1])
  {
    ReplaceAllChangesOnlyMatchEnds(s, pat, rep);
  }

  /** After `ReplaceAll` with a last-character bump, `pat` no longer occurs: the
      replacement cannot create a fresh occurrence. */
  lemma ReplaceAllRemoves(s: string, pat: string, rep: string)
    requires BumpsLast(pat, rep)
    ensures !Contains(ReplaceAll(s, pat, rep), pat)
  {
    var r := ReplaceAll(s, pat, rep);
    var c := rep[|pat| - 1];
    ReplaceAllOnlyWrites(s, pat, rep);
    ReplaceAllHitsEveryOccurrence(s, pat, rep);
    forall p | 0 <= p <= |r|
      ensures !OccursAt(r, pat, p)
    {
      if OccursAt(s, pat, p) {
        var j :| p <= j < p + |pat| && 0 <= j < |r| && r[j] == c;
        assert r[p..p + |pat|][j - p] == c != pat[j - p];
      } else {
        NoNewOccurrence(s, r, c, pat, p);
      }
    }
  }

  /** With a last-character bump, `ReplaceAll` changes the text exactly when `pat`
      occurs in it. */
  lemma ReplaceAllUnchangedIff(s: string, pat: string, rep: string)
    requires BumpsLast(pat, rep)
    ensures ReplaceAll(s, pat, rep) == s <==> !Contains(s, pat)
  {
    var r := ReplaceAll(s, pat, rep);
    var c := rep[|pat| - 1];
    ReplaceAllChangesOnlyMatchEnds(s, pat, rep);
    if p :| OccursAt(s, pat, p) {
      ReplaceAllHitsEveryOccurrence(s, pat, rep);
      var j :| p <= j < p + |pat| && 0 <= j < |r| && r[j] == c;
      assert s[j] == s[p..p + |pat|][j - p] == pat[j - p];
      assert r[j] != s[j];
    } else {
      assert forall i :: 0 <= i < |s| ==> r[i] == s[i];
      assert r == s;
    }
  }
}
