/**
 * Python's `str.replace(old, new)` with no count: every occurrence of the
 * pattern, found scanning left to right and never overlapping a previous
 * one, is replaced. With an empty pattern Python inserts the replacement
 * before every character and once more at the end.
 */
module PyStr {

  /** `s` begins with `p`. */
  predicate StartsWith(s: string, p: string)
  {
    |p| <= |s| && s[..|p|] == p
  }

  /** `p` occurs in `s` at index `j`. */
  predicate OccursAt(s: string, p: string, j: int)
  {
    0 <= j <= |s| && StartsWith(s[j..], p)
  }

  /** Python's `p in s`; the empty string occurs in every string. */
  predicate Occurs(s: string, p: string)
  {
    exists j | 0 <= j <= |s| :: OccursAt(s, p, j)
  }

  /** The scan of `s.replace(pat, rep)` for a non-empty pattern. */
  function ReplaceScan(s: string, pat: string, rep: string): string
    requires pat != []
    decreases |s|
  {
    if StartsWith(s, pat) then rep + ReplaceScan(s[|pat|..], pat, rep)
    else if s == [] then []
    else [s[0]] + ReplaceScan(s[1..], pat, rep)
  }

  /** `s.replace("", rep)`: `rep` before every character and at the end. */
  function InsertEverywhere(s: string, rep: string): (r: string)
    ensures |r| == |s| + (|s| + 1) * |rep|
  {
    if s == [] then rep else rep + [s[0]] + InsertEverywhere(s[1..], rep)
  }

  /** `list(s)`: each character as a one-character string. */
  function Chars(s: string): (r: seq<string>)
    ensures |r| == |s|
  {
    seq(|s|, i requires 0 <= i < |s| => [s[i]])
  }

  /** Where the copy of `rep` in front of character `i` starts in `s.replace("", rep)`. */
  function Slot(i: nat, rep: string): nat
  {
    i * (|rep| + 1)
  }

  /**
   * `s.replace("", rep)` holds a copy of `rep` at each of the |s| + 1 slots,
   * and character `i` of `s` right after the copy in front of it.
   */
  lemma {:induction false} InsertEverywhereContents(s: string, rep: string)
    ensures forall i | 0 <= i <= |s| ::
              Slot(i, rep) + |rep| <= |InsertEverywhere(s, rep)|
              && InsertEverywhere(s, rep)[Slot(i, rep) .. Slot(i, rep) + |rep|] == rep
    ensures forall i | 0 <= i < |s| ::
              Slot(i, rep) + |rep| < |InsertEverywhere(s, rep)|
              && InsertEverywhere(s, rep)[Slot(i, rep) + |rep|] == s[i]
    decreases |s|
  {
    if s != [] {
      var t := s[1..];
      InsertEverywhereContents(t, rep);
      var head := rep + [s[0]];
      var r, r' := InsertEverywhere(s, rep), InsertEverywhere(t, rep);
      assert r == head + r';
      forall i | 1 <= i <= |s|
        ensures Slot(i, rep) + |rep| <= |r| && r[Slot(i, rep) .. Slot(i, rep) + |rep|] == rep
      {
        assert Slot(i, rep) == Slot(i - 1, rep) + |head|;
      }
      forall i | 1 <= i < |s|
        ensures Slot(i, rep) + |rep| < |r| && r[Slot(i, rep) + |rep|] == s[i]
      {
        assert Slot(i, rep) == Slot(i - 1, rep) + |head|;
        assert t[i - 1] == s[i];
      }
      assert Slot(0, rep) == 0;
    }
  }

  /** `s.replace("", rep) == rep.join([""] + list(s) + [""])`. */
  lemma {:induction false} InsertEverywhereIsJoin(s: string, rep: string)
    ensures InsertEverywhere(s, rep) == Join([[]] + Chars(s) + [[]], rep)
    decreases |s|
  {
    if s != [] {
      var t := s[1..];
      var rest := [[]] + Chars(t) + [[]];
      InsertEverywhereIsJoin(t, rep);
      assert Chars(s) == [[s[0]]] + Chars(t);
      assert rest[0] == [] && rest[1..] == Chars(t) + [[]];
      assert [s[0]] + rest[0] == [s[0]];
      assert [[]] + Chars(s) + [[]] == [[]] + ([[s[0]] + rest[0]] + rest[1..]);
      JoinConsFirst(s[0], rest, rep);
    }
  }

  /** `s.replace(pat, rep)`. */
  function Replace(s: string, pat: string, rep: string): string
  {
    if pat == [] then InsertEverywhere(s, rep) else ReplaceScan(s, pat, rep)
  }

  /** `sep.join(pieces)`. */
  function Join(pieces: seq<string>, sep: string): string
  {
    if |pieces| == 0 then []
    else if |pieces| == 1 then pieces[0]
    else pieces[0] + sep + Join(pieces[1..], sep)
  }

  /** `s.split(pat)` for a non-empty pattern: the text between the occurrences. */
  function Split(s: string, pat: string): (r: seq<string>)
    requires pat != []
    ensures |r| >= 1
    decreases |s|
  {
    if StartsWith(s, pat) then [[]] + Split(s[|pat|..], pat)
    else if s == [] then [[]]
    else
      var t := Split(s[1..], pat);
      [[s[0]] + t[0]] + t[1..]
  }

  /**
   * `pieces` cuts `s` at the occurrences of `pat` that a left-to-right scan
   * finds: joined with `pat` they give back `s`, no occurrence starts inside
   * a piece before the cut that ends it, and the last piece holds none.
   */
  ghost predicate IsLeftmostSplit(s: string, pat: string, pieces: seq<string>)
  {
    && |pieces| >= 1
    && Join(pieces, pat) == s
    && (forall i, j | 0 <= i < |pieces| - 1 && 0 <= j < |pieces[i]| :: !OccursAt(pieces[i] + pat, pat, j))
    && !Occurs(pieces[|pieces| - 1], pat)
  }

  /** Text before the first occurrence is copied unchanged by the scan. */
  lemma {:induction false} ScanCopiesPrefix(u: string, w: string, pat: string, rep: string)
    requires pat != []
    requires forall j | 0 <= j < |u| :: !OccursAt(u + w, pat, j)
    ensures ReplaceScan(u + w, pat, rep) == u + ReplaceScan(w, pat, rep)
    decreases |u|
  {
    if u != [] {
      var s := u + w;
      assert !OccursAt(s, pat, 0);
      assert s[0..] == s;
      assert !StartsWith(s, pat);
      var tail := u[1..];
      assert s[1..] == tail + w;
      forall j | 0 <= j < |tail|
        ensures !OccursAt(tail + w, pat, j)
      {
        assert !OccursAt(s, pat, j + 1);
        assert s[j + 1..] == (tail + w)[j..];
      }
      ScanCopiesPrefix(tail, w, pat, rep);
      calc {
        ReplaceScan(s, pat, rep);
        [s[0]] + ReplaceScan(s[1..], pat, rep);
        [u[0]] + (tail + ReplaceScan(w, pat, rep));
        { assert u == [u[0]] + tail; }
        u + ReplaceScan(w, pat, rep);
      }
    } else {
      assert u + w == w;
    }
  }

  /** A topic in which the pattern does not occur is returned unchanged. */
  lemma ReplaceAbsent(s: string, pat: string, rep: string)
    requires !Occurs(s, pat)
    ensures Replace(s, pat, rep) == s
  {
    if pat == [] {
      assert OccursAt(s, pat, 0);
    } else {
      forall j | 0 <= j < |s| ensures !OccursAt(s + [], pat, j) {
        assert s + [] == s;
      }
      ScanCopiesPrefix(s, [], pat, rep);
      assert s + [] == s;
    }
  }

  /**
   * The scan replaces exactly the cuts of any leftmost split: the result is
   * the pieces, in order, with `rep` between them.
   */
  lemma {:induction false} ReplaceJoinsLeftmostSplit(s: string, pat: string, rep: string, pieces: seq<string>)
    requires pat != []
    requires IsLeftmostSplit(s, pat, pieces)
    ensures Replace(s, pat, rep) == Join(pieces, rep)
    decreases |pieces|
  {
    if |pieces| == 1 {
      ReplaceAbsent(s, pat, rep);
    } else {
      var u, rest := pieces[0], Join(pieces[1..], pat);
      assert s == u + (pat + rest);
      forall j | 0 <= j < |u| ensures !OccursAt(u + (pat + rest), pat, j) {
        assert !OccursAt(u + pat, pat, j);
        assert (u + (pat + rest))[j..][..|pat|] == (u + pat)[j..][..|pat|];
      }
      ScanCopiesPrefix(u, pat + rest, pat, rep);
      assert StartsWith(pat + rest, pat);
      assert (pat + rest)[|pat|..] == rest;
      assert IsLeftmostSplit(rest, pat, pieces[1..]) by {
        forall i, j | 0 <= i < |pieces[1..]| - 1 && 0 <= j < |pieces[1..][i]|
          ensures !OccursAt(pieces[1..][i] + pat, pat, j)
        {
          assert pieces[1..][i] == pieces[i + 1];
        }
      }
      ReplaceJoinsLeftmostSplit(rest, pat, rep, pieces[1..]);
    }
  }

  /** `pat.join(s.split(pat)) == s`. */
  lemma {:induction false} SplitJoin(s: string, pat: string)
    requires pat != []
    ensures Join(Split(s, pat), pat) == s
    decreases |s|
  {
    if StartsWith(s, pat) {
      SplitJoin(s[|pat|..], pat);
      var t := Split(s[|pat|..], pat);
      assert ([[]] + t)[1..] == t;
      assert s == pat + s[|pat|..];
    } else if s != [] {
      SplitJoin(s[1..], pat);
      JoinConsFirst(s[0], Split(s[1..], pat), pat);
      assert s == [s[0]] + s[1..];
    }
  }

  /** Gluing a character onto the first piece glues it onto the joined string. */
  lemma JoinConsFirst(c: char, t: seq<string>, sep: string)
    requires |t| >= 1
    ensures Join([[c] + t[0]] + t[1..], sep) == [c] + Join(t, sep)
  {
  }

  /** `s.replace(pat, rep) == rep.join(s.split(pat))`. */
  lemma {:induction false} ReplaceIsJoinOfSplit(s: string, pat: string, rep: string)
    requires pat != []
    ensures ReplaceScan(s, pat, rep) == Join(Split(s, pat), rep)
    decreases |s|
  {
    if StartsWith(s, pat) {
      ReplaceIsJoinOfSplit(s[|pat|..], pat, rep);
      var t := Split(s[|pat|..], pat);
      assert ([[]] + t)[1..] == t;
    } else if s != [] {
      ReplaceIsJoinOfSplit(s[1..], pat, rep);
      JoinConsFirst(s[0], Split(s[1..], pat), rep);
    }
  }

  /** An occurrence past the first character is an occurrence in the tail. */
  lemma OccursShift(c: char, u: string, p: string, j: int)
    requires 1 <= j
    ensures OccursAt([c] + u, p, j) <==> OccursAt(u, p, j - 1)
  {
  }

  /** `s.split(pat)` cuts `s` exactly where the left-to-right scan finds `pat`. */
  lemma {:induction false} SplitIsLeftmost(s: string, pat: string)
    requires pat != []
    ensures IsLeftmostSplit(s, pat, Split(s, pat))
    decreases |s|
  {
    var pieces := Split(s, pat);
    SplitJoin(s, pat);
    if StartsWith(s, pat) {
      var t := Split(s[|pat|..], pat);
      SplitIsLeftmost(s[|pat|..], pat);
      assert pieces == [[]] + t;
      forall i, j | 0 <= i < |pieces| - 1 && 0 <= j < |pieces[i]|
        ensures !OccursAt(pieces[i] + pat, pat, j)
      {
        assert i > 0 && pieces[i] == t[i - 1];
      }
    } else if s != [] {
      var tail := s[1..];
      var t := Split(tail, pat);
      SplitIsLeftmost(tail, pat);
      assert pieces == [[s[0]] + t[0]] + t[1..];
      assert s == [s[0]] + tail;
      forall i, j | 0 <= i < |pieces| - 1 && 0 <= j < |pieces[i]|
        ensures !OccursAt(pieces[i] + pat, pat, j)
      {
        if i > 0 {
          assert pieces[i] == t[i];
        } else if j > 0 {
          assert pieces[0] + pat == [s[0]] + (t[0] + pat);
          OccursShift(s[0], t[0] + pat, pat, j);
        } else {
          var rest := Join(t[1..], pat);
          assert tail == t[0] + pat + rest;
          assert s == (pieces[0] + pat) + rest;
          assert s[..|pat|] == (pieces[0] + pat)[..|pat|];
          assert (pieces[0] + pat)[0..] == pieces[0] + pat;
        }
      }
      if |t| == 1 {
        assert pieces[|pieces| - 1] == s;
        forall j | 0 <= j <= |s| ensures !OccursAt(s, pat, j) {
          if j > 0 {
            OccursShift(s[0], tail, pat, j);
          } else {
            assert s[0..] == s;
          }
        }
      } else {
        assert pieces[|pieces| - 1] == t[|t| - 1];
      }
    }
  }

  /** Replacing a pattern by itself leaves every string unchanged, empty pattern included. */
  lemma {:induction false} ReplaceBySelf(s: string, pat: string)
    ensures Replace(s, pat, pat) == s
    decreases |s|
  {
    if pat == [] {
      InsertNothing(s);
    } else {
      ReplaceIsJoinOfSplit(s, pat, pat);
      SplitJoin(s, pat);
    }
  }

  /** Inserting the empty string everywhere is the identity. */
  lemma {:induction false} InsertNothing(s: string)
    ensures InsertEverywhere(s, []) == s
  {
    if s != [] {
      InsertNothing(s[1..]);
    }
  }
}
