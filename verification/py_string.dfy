/**
 * The Python string primitives the convertor relies on: `str.replace`
 * (every non-overlapping occurrence, scanned left to right),
 * `str.split(sep)` with a non-empty separator and `sep.join(parts)`.
 */
module PyString {

  /** True when `pat` occurs somewhere in `s` (the empty pattern occurs everywhere). */
  predicate Occurs(s: string, pat: string)
    decreases |s|
  {
    |s| >= |pat| && (s[..|pat|] == pat || (|s| > 0 && Occurs(s[1..], pat)))
  }

  /**
   * `s.replace(pat, rep)`. With an empty `pat`, Python inserts `rep` before
   * every character and once at the end.
   */
  function Replace(s: string, pat: string, rep: string): string
    decreases |s|
  {
    if pat == [] then
      if s == [] then rep else rep + [s[0]] + Replace(s[1..], pat, rep)
    else if |s| < |pat| then s
    else if s[..|pat|] == pat then rep + Replace(s[|pat|..], pat, rep)
    else [s[0]] + Replace(s[1..], pat, rep)
  }

  /** `s.split(sep)` for a non-empty separator: always at least one part. */
  function Split(s: string, sep: string): (parts: seq<string>)
    requires sep != []
    ensures |parts| >= 1
    decreases |s|
  {
    if |s| < |sep| then [s]
    else if s[..|sep|] == sep then [[]] + Split(s[|sep|..], sep)
    else
      var rest := Split(s[1..], sep);
      [[s[0]] + rest[0]] + rest[1..]
  }

  /** `sep.join(parts)`. */
  function Join(sep: string, parts: seq<string>): string
    decreases |parts|
  {
    if parts == [] then []
    else if |parts| == 1 then parts[0]
    else parts[0] + sep + Join(sep, parts[1..])
  }

  /** Replacing a non-empty pattern is joining, with the replacement, the pieces between its occurrences. */
  lemma {:induction false} ReplaceIsJoinOfSplit(s: string, pat: string, rep: string)
    requires pat != []
    ensures Replace(s, pat, rep) == Join(rep, Split(s, pat))
    decreases |s|
  {
    if |s| < |pat| {
    } else if s[..|pat|] == pat {
      ReplaceIsJoinOfSplit(s[|pat|..], pat, rep);
      ReplaceIsJoinAtMatch(s, pat, rep);
    } else {
      ReplaceIsJoinOfSplit(s[1..], pat, rep);
      ReplaceIsJoinPastChar(s, pat, rep);
    }
  }

  /** The step of `ReplaceIsJoinOfSplit` where `s` starts with the pattern. */
  lemma ReplaceIsJoinAtMatch(s: string, pat: string, rep: string)
    requires pat != [] && |s| >= |pat| && s[..|pat|] == pat
    requires Replace(s[|pat|..], pat, rep) == Join(rep, Split(s[|pat|..], pat))
    ensures Replace(s, pat, rep) == Join(rep, Split(s, pat))
  {
    JoinCons(rep, [], Split(s[|pat|..], pat));
  }

  /** The step of `ReplaceIsJoinOfSplit` where `s` does not start with the pattern. */
  lemma ReplaceIsJoinPastChar(s: string, pat: string, rep: string)
    requires pat != [] && |s| >= |pat| && s[..|pat|] != pat
    requires Replace(s[1..], pat, rep) == Join(rep, Split(s[1..], pat))
    ensures Replace(s, pat, rep) == Join(rep, Split(s, pat))
  {
    JoinExtendHead(rep, s[0], Split(s[1..], pat));
  }

  lemma JoinCons(sep: string, x: string, parts: seq<string>)
    requires parts != []
    ensures Join(sep, [x] + parts) == x + sep + Join(sep, parts)
  {
    assert ([x] + parts)[1..] == parts;
  }

  /** Putting a character in front of the first piece puts it in front of the joined string. */
  lemma JoinExtendHead(sep: string, c: char, parts: seq<string>)
    requires parts != []
    ensures Join(sep, [[c] + parts[0]] + parts[1..]) == [c] + Join(sep, parts)
  {
    var ps := [[c] + parts[0]] + parts[1..];
    if |parts| > 1 {
      assert ps[1..] == parts[1..];
      assert Join(sep, ps) == [c] + parts[0] + sep + Join(sep, parts[1..]);
    }
  }

  /** Replacing a pattern by itself changes nothing, whatever the pattern. */
  lemma {:induction false} ReplaceWithItself(s: string, pat: string)
    ensures Replace(s, pat, pat) == s
    decreases |s|
  {
    if pat == [] {
      if s != [] {
        ReplaceWithItself(s[1..], pat);
        assert s == [s[0]] + s[1..];
      }
    } else if |s| < |pat| {
    } else if s[..|pat|] == pat {
      ReplaceWithItself(s[|pat|..], pat);
      assert s == s[..|pat|] + s[|pat|..];
    } else {
      ReplaceWithItself(s[1..], pat);
      assert s == [s[0]] + s[1..];
    }
  }

  /** A template in which the pattern does not occur comes back unchanged. */
  lemma {:induction false} ReplaceAbsent(s: string, pat: string, rep: string)
    requires pat != [] && !Occurs(s, pat)
    ensures Replace(s, pat, rep) == s
    decreases |s|
  {
    if |s| >= |pat| {
      ReplaceAbsent(s[1..], pat, rep);
      assert s == [s[0]] + s[1..];
    }
  }

  /** Splitting and joining back with the same separator gives the original string. */
  lemma SplitThenJoin(s: string, sep: string)
    requires sep != []
    ensures Join(sep, Split(s, sep)) == s
  {
    ReplaceIsJoinOfSplit(s, sep, sep);
    ReplaceWithItself(s, sep);
  }

  /** The first piece of a split is a prefix of the string. */
  lemma {:induction false} SplitHeadIsPrefix(s: string, sep: string)
    requires sep != []
    ensures |Split(s, sep)[0]| <= |s| && s[..|Split(s, sep)[0]|] == Split(s, sep)[0]
    decreases |s|
  {
    if |s| >= |sep| && s[..|sep|] != sep {
      SplitHeadIsPrefix(s[1..], sep);
    }
  }

  /** No piece of a split contains the separator. */
  lemma {:induction false} SplitPiecesFree(s: string, sep: string, i: nat)
    requires sep != [] && i < |Split(s, sep)|
    ensures !Occurs(Split(s, sep)[i], sep)
    decreases |s|
  {
    var parts := Split(s, sep);
    if |s| < |sep| {
      NoRoomNoOccurrence(s, sep);
    } else if s[..|sep|] == sep {
      if i == 0 {
        NoRoomNoOccurrence([], sep);
      } else {
        SplitPiecesFree(s[|sep|..], sep, i - 1);
      }
    } else {
      var rest := Split(s[1..], sep);
      if i == 0 {
        SplitPiecesFree(s[1..], sep, 0);
        SplitHeadIsPrefix(s[1..], sep);
        var head := [s[0]] + rest[0];
        assert parts[0] == head;
        if |head| >= |sep| {
          assert head[..|sep|] == s[..|sep|];
        }
        assert head[1..] == rest[0];
      } else {
        SplitPiecesFree(s[1..], sep, i);
      }
    }
  }

  lemma {:induction false} NoRoomNoOccurrence(s: string, pat: string)
    requires |s| < |pat|
    ensures !Occurs(s, pat)
  {
  }

  /** Joining one more piece appends the separator and that piece. */
  lemma {:induction false} JoinSnoc(sep: string, parts: seq<string>, last: string)
    requires parts != []
    ensures Join(sep, parts + [last]) == Join(sep, parts) + sep + last
    decreases |parts|
  {
    if |parts| == 1 {
      assert parts + [last] == [parts[0], last];
      assert [parts[0], last][1..] == [last];
    } else {
      JoinSnoc(sep, parts[1..], last);
      assert (parts + [last])[1..] == parts[1..] + [last];
    }
  }

  /**
   * Every occurrence counted by the split changes the length by the
   * difference between the replacement and the pattern.
   */
  lemma {:induction false} ReplaceLength(s: string, pat: string, rep: string)
    requires pat != []
    ensures |Replace(s, pat, rep)| == |s| + (|Split(s, pat)| - 1) * (|rep| - |pat|)
    decreases |s|
  {
    if |s| < |pat| {
    } else if s[..|pat|] == pat {
      ReplaceLength(s[|pat|..], pat, rep);
      var k := |Split(s[|pat|..], pat)| - 1;
      assert |Split(s, pat)| - 1 == k + 1;
      assert (k + 1) * (|rep| - |pat|) == k * (|rep| - |pat|) + (|rep| - |pat|);
    } else {
      ReplaceLength(s[1..], pat, rep);
    }
  }
}
