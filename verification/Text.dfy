/** The string operations of the codecs: replacing a first occurrence, splitting at and joining with a separator. */
module Text {
  predicate OccursAt(s: string, pat: string, i: int) {
    0 <= i <= |s| - |pat| && forall k :: 0 <= k < |pat| ==> pat[k] == s[i + k]
  }

  ghost predicate Contains(s: string, pat: string) {
    exists i :: OccursAt(s, pat, i)
  }

  predicate Free(s: string, c: char) {
    c !in s
  }

  /** `s` with the first occurrence of the non-empty text `pat`, if there is one, replaced. */
  function ReplaceFirst(s: string, pat: string, neu: string): string
    requires pat != ""
  {
    if |s| < |pat| then s
    else if OccursAt(s, pat, 0) then neu + s[|pat|..]
    else [s[0]] + ReplaceFirst(s[1..], pat, neu)
  }

  /** The first occurrence, as an independent definition. */
  ghost predicate FirstAt(s: string, pat: string, i: int) {
    OccursAt(s, pat, i) && forall j :: 0 <= j < i ==> !OccursAt(s, pat, j)
  }

  lemma {:induction false} ReplaceFirstAt(s: string, pat: string, neu: string, i: int)
    requires pat != "" && FirstAt(s, pat, i)
    ensures ReplaceFirst(s, pat, neu) == s[..i] + neu + s[i + |pat|..]
    decreases i
  {
    if i == 0 {
      assert s[..0] + neu + s[|pat|..] == neu + s[|pat|..];
    } else {
      var t := s[1..];
      assert !OccursAt(s, pat, 0);
      assert FirstAt(t, pat, i - 1) by {
        assert forall j :: OccursAt(t, pat, j) ==> OccursAt(s, pat, j + 1);
      }
      ReplaceFirstAt(t, pat, neu, i - 1);
      calc {
        [s[0]] + (t[..i - 1] + neu + t[i - 1 + |pat|..]);
        ([s[0]] + t[..i - 1]) + neu + t[i - 1 + |pat|..];
        { assert [s[0]] + t[..i - 1] == s[..i]; assert t[i - 1 + |pat|..] == s[i + |pat|..]; }
        s[..i] + neu + s[i + |pat|..];
      }
    }
  }

  lemma {:induction false} ReplaceFirstNone(s: string, pat: string, neu: string)
    requires pat != "" && !Contains(s, pat)
    ensures ReplaceFirst(s, pat, neu) == s
  {
    if |s| < |pat| {
    } else {
      assert !OccursAt(s, pat, 0);
      assert forall i :: OccursAt(s[1..], pat, i) ==> OccursAt(s, pat, i + 1);
      ReplaceFirstNone(s[1..], pat, neu);
    }
  }

  lemma FirstOccurrence(s: string, pat: string) returns (i: int)
    requires Contains(s, pat)
    ensures FirstAt(s, pat, i)
  {
    i :| OccursAt(s, pat, i);
    while exists j :: 0 <= j < i && OccursAt(s, pat, j)
      invariant OccursAt(s, pat, i)
      decreases i
    {
      var j :| 0 <= j < i && OccursAt(s, pat, j);
      i := j;
    }
  }

  /** A pattern without the character `c` cannot lie across a `c`. */
  lemma OccursBeside(u: string, c: char, v: string, pat: string, i: int)
    requires Free(pat, c) && pat != ""
    ensures OccursAt(u + [c] + v, pat, i) <==>
            OccursAt(u, pat, i) || (i > |u| && OccursAt(v, pat, i - |u| - 1))
  {
    var s := u + [c] + v;
    assert forall k :: 0 <= k < |u| ==> s[k] == u[k];
    assert s[|u|] == c;
    assert forall k :: 0 <= k < |v| ==> s[|u| + 1 + k] == v[k];
    assert 0 <= |u| - i < |pat| ==> pat[|u| - i] != c;
    if OccursAt(s, pat, i) && i > |u| {
      forall k | 0 <= k < |pat| ensures pat[k] == v[i - |u| - 1 + k] {
        assert pat[k] == s[i + k];
      }
    }
    if i > |u| && OccursAt(v, pat, i - |u| - 1) {
      forall k | 0 <= k < |pat| ensures pat[k] == s[i + k] {
        assert pat[k] == v[i - |u| - 1 + k];
      }
    }
  }

  lemma ContainsBeside(u: string, c: char, v: string, pat: string)
    requires Free(pat, c) && pat != ""
    ensures Contains(u + [c] + v, pat) <==> Contains(u, pat) || Contains(v, pat)
  {
    if i :| OccursAt(u + [c] + v, pat, i) {
      OccursBeside(u, c, v, pat, i);
    }
    if i :| OccursAt(u, pat, i) {
      OccursBeside(u, c, v, pat, i);
    }
    if i :| OccursAt(v, pat, i) {
      OccursBeside(u, c, v, pat, i + |u| + 1);
      assert OccursAt(u + [c] + v, pat, i + |u| + 1);
    }
  }

  /** Replacing in a text with a separator happens on the left if the pattern occurs there, else on the right. */
  lemma ReplaceLeft(u: string, c: char, v: string, pat: string, neu: string)
    requires Free(pat, c) && pat != "" && Contains(u, pat)
    ensures ReplaceFirst(u + [c] + v, pat, neu) == ReplaceFirst(u, pat, neu) + [c] + v
  {
    var s := u + [c] + v;
    var i := FirstOccurrence(u, pat);
    forall j | 0 <= j <= i ensures OccursAt(s, pat, j) <==> OccursAt(u, pat, j) {
      OccursBeside(u, c, v, pat, j);
    }
    ReplaceFirstAt(u, pat, neu, i);
    ReplaceFirstAt(s, pat, neu, i);
    assert s[..i] == u[..i];
    assert s[i + |pat|..] == u[i + |pat|..] + [c] + v;
  }

  lemma ReplaceRight(u: string, c: char, v: string, pat: string, neu: string)
    requires Free(pat, c) && pat != "" && !Contains(u, pat)
    ensures ReplaceFirst(u + [c] + v, pat, neu) == u + [c] + ReplaceFirst(v, pat, neu)
  {
    if Contains(v, pat) {
      ReplaceRightFound(u, c, v, pat, neu);
    } else {
      ContainsBeside(u, c, v, pat);
      ReplaceFirstNone(v, pat, neu);
      ReplaceFirstNone(u + [c] + v, pat, neu);
    }
  }

  lemma FirstOnTheRight(u: string, c: char, v: string, pat: string, i: int)
    requires Free(pat, c) && pat != "" && !Contains(u, pat) && FirstAt(v, pat, i)
    ensures FirstAt(u + [c] + v, pat, i + |u| + 1)
  {
    var s := u + [c] + v;
    forall j | 0 <= j <= i + |u| + 1
      ensures OccursAt(s, pat, j) <==> j > |u| && OccursAt(v, pat, j - |u| - 1)
    {
      OccursBeside(u, c, v, pat, j);
    }
  }

  lemma ReplaceRightFound(u: string, c: char, v: string, pat: string, neu: string)
    requires Free(pat, c) && pat != "" && !Contains(u, pat) && Contains(v, pat)
    ensures ReplaceFirst(u + [c] + v, pat, neu) == u + [c] + ReplaceFirst(v, pat, neu)
  {
    var i := FirstOccurrence(v, pat);
    FirstOnTheRight(u, c, v, pat, i);
    ReplaceFirstAt(v, pat, neu, i);
    ReplaceFirstAt(u + [c] + v, pat, neu, i + |u| + 1);
    SliceRight(u + [c], v, i, |pat|);
    Regroup(u + [c], v[..i], neu, v[i + |pat|..]);
  }

  lemma SliceRight(a: string, v: string, i: nat, n: nat)
    requires i + n <= |v|
    ensures (a + v)[..i + |a|] == a + v[..i]
    ensures (a + v)[i + |a| + n..] == v[i + n..]
  {
  }

  lemma Regroup(a: string, b: string, c: string, d: string)
    ensures (a + b) + c + d == a + (b + c + d)
  {
  }

  lemma ReplaceWhole(pat: string, neu: string)
    requires pat != ""
    ensures ReplaceFirst(pat, pat, neu) == neu
    ensures Contains(pat, pat)
  {
    assert OccursAt(pat, pat, 0);
  }

  /** Replacing a text by itself changes nothing. */
  lemma ReplaceBySelf(s: string, pat: string)
    requires pat != ""
    ensures ReplaceFirst(s, pat, pat) == s
  {
  }

  // ---------- splitting and joining ----------

  /** The pieces of `s` between the separators; there is always at least one piece. */
  function Split(s: string, c: char): (parts: seq<string>)
    ensures |parts| > 0
  {
    if s == "" then [""]
    else
      var rest := Split(s[1..], c);
      if s[0] == c then [""] + rest else [[s[0]] + rest[0]] + rest[1..]
  }

  function Join(parts: seq<string>, c: char): string {
    if parts == [] then ""
    else if |parts| == 1 then parts[0]
    else parts[0] + [c] + Join(parts[1..], c)
  }

  lemma {:induction false} SplitFree(s: string, c: char)
    requires Free(s, c)
    ensures Split(s, c) == [s]
  {
    if s == "" {
    } else {
      SplitFree(s[1..], c);
      assert [s[0]] + s[1..] == s;
    }
  }

  lemma {:induction false} SplitConcat(a: string, c: char, b: string)
    ensures Split(a + [c] + b, c) == Split(a, c) + Split(b, c)
  {
    var s := a + [c] + b;
    if a == "" {
      assert s[1..] == b;
    } else {
      assert s[1..] == a[1..] + [c] + b;
      SplitConcat(a[1..], c, b);
    }
  }

  lemma {:induction false} PiecesFree(s: string, c: char)
    ensures forall i :: 0 <= i < |Split(s, c)| ==> Free(Split(s, c)[i], c)
  {
    if s == "" {
    } else {
      PiecesFree(s[1..], c);
    }
  }

  lemma {:induction false} JoinConcat(a: seq<string>, b: seq<string>, c: char)
    requires a != [] && b != []
    ensures Join(a + b, c) == Join(a, c) + [c] + Join(b, c)
  {
    if |a| == 1 {
      assert (a + b)[1..] == b;
    } else {
      assert (a + b)[1..] == a[1..] + b;
      JoinConcat(a[1..], b, c);
    }
  }

  /** Joining the pieces gives the text back. */
  lemma {:induction false} JoinSplit(s: string, c: char)
    ensures Join(Split(s, c), c) == s
  {
    if s != "" {
      var rest := Split(s[1..], c);
      JoinSplit(s[1..], c);
      if s[0] == c {
        JoinConcat([""], rest, c);
      } else if |rest| > 1 {
        assert Split(s, c)[1..] == rest[1..];
      }
    }
  }

  /** Splitting a joined list of separator-free texts gives the list back. */
  lemma {:induction false} SplitJoin(parts: seq<string>, c: char)
    requires parts != []
    requires forall i :: 0 <= i < |parts| ==> Free(parts[i], c)
    ensures Split(Join(parts, c), c) == parts
  {
    SplitFree(parts[0], c);
    if |parts| == 1 {
    } else {
      SplitJoin(parts[1..], c);
      SplitConcat(parts[0], c, Join(parts[1..], c));
      assert [parts[0]] + parts[1..] == parts;
    }
  }
}
