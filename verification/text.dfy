/** `String.Replace(oldValue, newValue)` on .NET strings, modelled on
    `seq<char>`: an ordinal, case-sensitive scan from the left that replaces
    every non-overlapping occurrence. */
module Text {

  predicate OccursAt(s: string, pat: string, i: nat) {
    i + |pat| <= |s| && s[i..i + |pat|] == pat
  }

  predicate Contains(s: string, pat: string) {
    exists i: nat | i <= |s| :: OccursAt(s, pat, i)
  }

  /** No character of `a` is a character of `b`. */
  predicate CharsDisjoint(a: string, b: string) {
    forall i :: 0 <= i < |a| ==> a[i] !in b
  }

  function ReplaceAll(s: string, pat: string, rep: string): string
    requires |pat| > 0
    decreases |s|
  {
    if |s| < |pat| then s
    else if s[..|pat|] == pat then rep + ReplaceAll(s[|pat|..], pat, rep)
    else [s[0]] + ReplaceAll(s[1..], pat, rep)
  }

  /** The segments between the occurrences the scan finds. */
  function Split(s: string, pat: string): (segs: seq<string>)
    requires |pat| > 0
    ensures |segs| > 0
    decreases |s|
  {
    if |s| < |pat| then [s]
    else if s[..|pat|] == pat then [[]] + Split(s[|pat|..], pat)
    else
      var rest := Split(s[1..], pat);
      [[s[0]] + rest[0]] + rest[1..]
  }

  function Join(segs: seq<string>, sep: string): string
    requires |segs| > 0
  {
    if |segs| == 1 then segs[0] else segs[0] + sep + Join(segs[1..], sep)
  }

  lemma {:induction false} JoinConsHead(c: char, segs: seq<string>, sep: string)
    requires |segs| > 0
    ensures Join([[c] + segs[0]] + segs[1..], sep) == [c] + Join(segs, sep)
  {
    var t := [[c] + segs[0]] + segs[1..];
    if |segs| > 1 {
      assert t[1..] == segs[1..];
    }
  }

  /** Replacing is splitting at the occurrences and joining with the
      replacement; joining with the pattern itself gives back the input. So
      every occurrence found is replaced and every other character is kept. */
  lemma {:induction false} ReplaceAllIsSplitJoin(s: string, pat: string, rep: string)
    requires |pat| > 0
    ensures ReplaceAll(s, pat, rep) == Join(Split(s, pat), rep)
    ensures s == Join(Split(s, pat), pat)
    decreases |s|
  {
    if |s| < |pat| {
    } else if s[..|pat|] == pat {
      ReplaceAllIsSplitJoin(s[|pat|..], pat, rep);
      var segs := [[]] + Split(s[|pat|..], pat);
      assert segs[1..] == Split(s[|pat|..], pat);
      assert s == s[..|pat|] + s[|pat|..];
    } else {
      ReplaceAllIsSplitJoin(s[1..], pat, rep);
      JoinConsHead(s[0], Split(s[1..], pat), rep);
      JoinConsHead(s[0], Split(s[1..], pat), pat);
      assert s == [s[0]] + s[1..];
    }
  }

  /** Replacing a pattern by itself changes nothing. */
  lemma {:induction false} ReplaceWithSelf(s: string, pat: string)
    requires |pat| > 0
    ensures ReplaceAll(s, pat, pat) == s
    decreases |s|
  {
    if |s| < |pat| {
    } else if s[..|pat|] == pat {
      ReplaceWithSelf(s[|pat|..], pat);
      assert s == s[..|pat|] + s[|pat|..];
    } else {
      ReplaceWithSelf(s[1..], pat);
      assert s == [s[0]] + s[1..];
    }
  }

  /** A text without the pattern comes back unchanged. */
  lemma {:induction false} ReplaceAbsent(s: string, pat: string, rep: string)
    requires |pat| > 0 && !Contains(s, pat)
    ensures ReplaceAll(s, pat, rep) == s
    decreases |s|
  {
    if |s| >= |pat| {
      assert !OccursAt(s, pat, 0);
      assert s[..|pat|] != pat;
      forall i: nat | OccursAt(s[1..], pat, i)
        ensures OccursAt(s, pat, i + 1)
      {
        assert s[1..][i..i + |pat|] == s[i + 1..i + 1 + |pat|];
      }
      ReplaceAbsent(s[1..], pat, rep);
      assert s == [s[0]] + s[1..];
    }
  }

  /** When the first occurrence of the pattern starts right after `a`, the
      text up to it is kept and that occurrence becomes the replacement. */
  lemma {:induction false} ReplaceAllFirstOccurrence(a: string, pat: string, b: string, rep: string)
    requires |pat| > 0
    requires forall i: nat :: i < |a| ==> !OccursAt(a + pat + b, pat, i)
    ensures ReplaceAll(a + pat + b, pat, rep) == a + rep + ReplaceAll(b, pat, rep)
    decreases |a|
  {
    var s := a + pat + b;
    if |a| == 0 {
      assert s == pat + b;
      assert s[..|pat|] == pat && s[|pat|..] == b;
    } else {
      assert !OccursAt(s, pat, 0);
      assert s[..|pat|] != pat;
      assert s[1..] == a[1..] + pat + b;
      forall i: nat | i < |a[1..]|
        ensures !OccursAt(a[1..] + pat + b, pat, i)
      {
        assert !OccursAt(s, pat, i + 1);
        assert s[i + 1..i + 1 + |pat|] == (a[1..] + pat + b)[i..i + |pat|];
      }
      ReplaceAllFirstOccurrence(a[1..], pat, b, rep);
      assert a + rep + ReplaceAll(b, pat, rep) == [a[0]] + (a[1..] + rep + ReplaceAll(b, pat, rep));
    }
  }

  /** A replacement longer than the pattern never shortens the text, and it
      lengthens it exactly when the pattern occurs. */
  lemma {:induction false} LongerReplacementGrows(s: string, pat: string, rep: string)
    requires 0 < |pat| < |rep|
    ensures |ReplaceAll(s, pat, rep)| >= |s|
    ensures Contains(s, pat) ==> |ReplaceAll(s, pat, rep)| > |s|
    ensures !Contains(s, pat) ==> |ReplaceAll(s, pat, rep)| == |s|
    decreases |s|
  {
    if !Contains(s, pat) {
      ReplaceAbsent(s, pat, rep);
    }
    if |s| < |pat| {
    } else if s[..|pat|] == pat {
      LongerReplacementGrows(s[|pat|..], pat, rep);
    } else {
      LongerReplacementGrows(s[1..], pat, rep);
      forall i: nat | i <= |s| && OccursAt(s, pat, i)
        ensures Contains(s[1..], pat)
      {
        assert i > 0;
        assert s[1..][i - 1..i - 1 + |pat|] == s[i..i + |pat|];
        assert OccursAt(s[1..], pat, i - 1);
      }
    }
  }

  /** A prefix of a replaced text in which no replacement character shows
      up is an unchanged prefix of the input. */
  lemma {:induction false} UntouchedPrefix(t: string, pat: string, rep: string, k: nat)
    requires |pat| > 0 && |rep| > 0
    requires k <= |ReplaceAll(t, pat, rep)|
    ensures (forall i :: 0 <= i < k ==> ReplaceAll(t, pat, rep)[i] !in rep) ==>
              k <= |t| && ReplaceAll(t, pat, rep)[..k] == t[..k]
    decreases |t|
  {
    var r := ReplaceAll(t, pat, rep);
    if |t| < |pat| {
    } else if t[..|pat|] == pat {
      if k > 0 {
        assert r[0] == rep[0] && r[0] in rep;
      }
    } else if k > 0 && forall i :: 0 <= i < k ==> r[i] !in rep {
      var r1 := ReplaceAll(t[1..], pat, rep);
      assert r == [t[0]] + r1;
      forall i | 0 <= i < k - 1
        ensures r1[i] !in rep
      {
        assert r1[i] == r[i + 1];
      }
      UntouchedPrefix(t[1..], pat, rep, k - 1);
      assert r[..k] == [t[0]] + r1[..k - 1];
      assert t[..k] == [t[0]] + t[1..][..k - 1];
    }
  }

  /** When the replacement is non-empty and shares no character with the
      pattern, no occurrence of the pattern is left afterwards. */
  lemma {:induction false} NoOccurrenceLeft(s: string, pat: string, rep: string)
    requires |pat| > 0 && |rep| > 0 && CharsDisjoint(rep, pat)
    ensures !Contains(ReplaceAll(s, pat, rep), pat)
    decreases |s|
  {
    var r := ReplaceAll(s, pat, rep);
    if |s| < |pat| {
    } else if s[..|pat|] == pat {
      var r1 := ReplaceAll(s[|pat|..], pat, rep);
      assert r == rep + r1;
      NoOccurrenceLeft(s[|pat|..], pat, rep);
      forall i: nat | i + |pat| <= |r|
        ensures !OccursAt(r, pat, i)
      {
        if i < |rep| {
          assert r[i..i + |pat|][0] == rep[i] && rep[i] !in pat;
        } else {
          assert r[i..i + |pat|] == r1[i - |rep|..i - |rep| + |pat|];
          assert !OccursAt(r1, pat, i - |rep|);
        }
      }
    } else {
      var r1 := ReplaceAll(s[1..], pat, rep);
      assert r == [s[0]] + r1;
      NoOccurrenceLeft(s[1..], pat, rep);
      forall i: nat | i + |pat| <= |r|
        ensures !OccursAt(r, pat, i)
      {
        if i > 0 {
          assert r[i..i + |pat|] == r1[i - 1..i - 1 + |pat|];
          assert !OccursAt(r1, pat, i - 1);
        } else if j :| 0 <= j < |pat| - 1 && r1[j] in rep {
          var m :| 0 <= m < |rep| && rep[m] == r1[j];
          assert r[..|pat|][j + 1] == r1[j] && r1[j] !in pat;
        } else {
          UntouchedPrefix(s[1..], pat, rep, |pat| - 1);
          assert r[..|pat|] == [s[0]] + r1[..|pat| - 1];
          assert s[..|pat|] == [s[0]] + s[1..][..|pat| - 1];
        }
      }
    }
  }
}
