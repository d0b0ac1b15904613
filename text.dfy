/**
 * The two .NET string operations the claims mapping relies on, with the
 * semantics they have there: `String.Split` with a one-character separator
 * and no options (empty pieces are kept, the empty string gives one empty
 * piece), and ordinal `String.Replace(pattern, "")`, which removes every
 * non-overlapping occurrence of the pattern in one left-to-right pass.
 */
module Text {

  /** Position of the first `d` in `s`, or `|s|` when `s` holds none. */
  function IndexOf(s: string, d: char): (i: nat)
    ensures i <= |s|
    ensures forall k :: 0 <= k < i ==> s[k] != d
    ensures i < |s| ==> s[i] == d
  {
    if |s| == 0 then 0
    else if s[0] == d then 0
    else 1 + IndexOf(s[1..], d)
  }

  /** The pieces of `s` between consecutive separators, empty ones included. */
  function Split(s: string, d: char): (parts: seq<string>)
    ensures |parts| >= 1
    ensures parts[0] == s[..IndexOf(s, d)]
    ensures forall k :: 0 <= k < |parts| ==> d !in parts[k]
    decreases |s|
  {
    var i := IndexOf(s, d);
    if i == |s| then [s] else [s[..i]] + Split(s[i + 1..], d)
  }

  /** The pieces put back together with the separator between them: the inverse of `Split`. */
  function Join(parts: seq<string>, d: char): string
  {
    if |parts| == 0 then ""
    else if |parts| == 1 then parts[0]
    else parts[0] + [d] + Join(parts[1..], d)
  }

  /** Joining the pieces back with the separator gives the original string. */
  lemma {:induction false} SplitJoin(s: string, d: char)
    ensures Join(Split(s, d), d) == s
    decreases |s|
  {
    var i := IndexOf(s, d);
    if i < |s| {
      var rest := Split(s[i + 1..], d);
      SplitJoin(s[i + 1..], d);
      var parts := [s[..i]] + rest;
      assert parts[1..] == rest;
      assert s == s[..i] + [d] + s[i + 1..];
    }
  }

  /** There is one more piece than there are separators in `s`. */
  lemma {:induction false} SplitCount(s: string, d: char)
    ensures |Split(s, d)| == multiset(s)[d] + 1
    decreases |s|
  {
    var i := IndexOf(s, d);
    var head := s[..i];
    assert d !in head;
    if i == |s| {
      assert head == s;
      assert multiset(s)[d] == 0;
    } else {
      var tail := s[i + 1..];
      assert s == head + [d] + tail;
      SplitAfterFirst(head, d, tail);
      SplitCount(tail, d);
      assert multiset(s) == multiset(head) + multiset{d} + multiset(tail);
    }
  }

  /** The first piece ends at the first separator; the rest is split on its own. */
  lemma SplitAfterFirst(head: string, d: char, tail: string)
    requires d !in head
    ensures Split(head + [d] + tail, d) == [head] + Split(tail, d)
  {
    var s := head + [d] + tail;
    var i := IndexOf(s, d);
    assert s[|head|] == d;
    assert forall k | 0 <= k < |head| :: s[k] == head[k] && s[k] != d;
    assert s[..i] == head && s[i + 1..] == tail;
  }

  /** Pieces free of the separator, joined and split again, come back unchanged. */
  lemma {:induction false} JoinSplit(parts: seq<string>, d: char)
    requires |parts| > 0
    requires forall k | 0 <= k < |parts| :: d !in parts[k]
    ensures Split(Join(parts, d), d) == parts
  {
    if |parts| == 1 {
      SplitWithoutSeparator(parts[0], d);
    } else {
      var rest := parts[1..];
      assert forall k | 0 <= k < |rest| :: d !in rest[k] by {
        forall k | 0 <= k < |rest| ensures d !in rest[k] {
          assert rest[k] == parts[k + 1];
        }
      }
      var joined := Join(rest, d);
      JoinSplit(rest, d);
      SplitAfterFirst(parts[0], d, joined);
      calc {
        Split(Join(parts, d), d);
        Split(parts[0] + [d] + joined, d);
        [parts[0]] + Split(joined, d);
        [parts[0]] + rest;
        parts;
      }
    }
  }

  /** A string without the separator is a single piece, itself. */
  lemma SplitWithoutSeparator(s: string, d: char)
    requires d !in s
    ensures Split(s, d) == [s]
  {
    SplitCount(s, d);
    assert multiset(s)[d] == 0;
    assert s[..IndexOf(s, d)] == s;
  }

  /** `pat` occurs in `s` starting at position `i`. */
  predicate OccursAt(s: string, pat: string, i: int)
  {
    0 <= i && i + |pat| <= |s| && s[i..i + |pat|] == pat
  }

  predicate Contains(s: string, pat: string)
  {
    exists i | 0 <= i <= |s| :: OccursAt(s, pat, i)
  }

  /**
   * Replacing `pat` by the empty string: removes the leftmost occurrence of `pat`, then
   * carries on after it; text that forms `pat` only once something has been
   * removed is left in place.
   */
  function Remove(s: string, pat: string): (r: string)
    requires |pat| > 0
    ensures |r| <= |s|
    decreases |s|
  {
    if |s| < |pat| then s
    else if s[..|pat|] == pat then Remove(s[|pat|..], pat)
    else [s[0]] + Remove(s[1..], pat)
  }

  /** Removal only deletes characters: one absent from `s` is absent from the result. */
  lemma {:induction false} RemoveAddsNothing(s: string, pat: string, c: char)
    requires |pat| > 0
    requires c !in s
    ensures c !in Remove(s, pat)
    decreases |s|
  {
    if |s| >= |pat| {
      if s[..|pat|] == pat {
        assert forall k | 0 <= k < |s| - |pat| :: s[|pat|..][k] == s[|pat| + k];
        RemoveAddsNothing(s[|pat|..], pat, c);
      } else {
        assert forall k | 0 <= k < |s| - 1 :: s[1..][k] == s[1 + k];
        RemoveAddsNothing(s[1..], pat, c);
      }
    }
  }

  /**
   * The scan keeps the text before the leftmost occurrence, drops that
   * occurrence and carries on after it: with `RemoveUnchangedIff` this
   * determines the result on every string.
   */
  lemma {:induction false} RemoveLeftmost(a: string, pat: string, b: string)
    requires |pat| > 0
    requires forall i | 0 <= i < |a| :: !OccursAt(a + pat, pat, i)
    ensures Remove(a + pat + b, pat) == a + Remove(b, pat)
    decreases |a|
  {
    if a == [] {
      assert a + pat + b == pat + b;
      RemoveLeading(pat, b);
    } else {
      var s := a + pat + b;
      var rest := a[1..];
      assert forall i | 0 <= i < |rest| :: !OccursAt(rest + pat, pat, i) by {
        forall i | 0 <= i < |rest|
          ensures !OccursAt(rest + pat, pat, i)
        {
          assert (rest + pat)[i..i + |pat|] == (a + pat)[i + 1..i + 1 + |pat|];
          assert !OccursAt(a + pat, pat, i + 1);
        }
      }
      assert s[..|pat|] != pat by {
        assert s[..|pat|] == (a + pat)[..|pat|];
        assert !OccursAt(a + pat, pat, 0);
      }
      assert s[1..] == rest + pat + b;
      calc {
        Remove(s, pat);
        [s[0]] + Remove(rest + pat + b, pat);
        { RemoveLeftmost(rest, pat, b); }
        [a[0]] + (rest + Remove(b, pat));
        a + Remove(b, pat);
      }
    }
  }

  /** Removing an occurrence shortens the string by at least the pattern's length. */
  lemma {:induction false} RemoveShrinks(s: string, pat: string)
    requires |pat| > 0
    requires Contains(s, pat)
    ensures |Remove(s, pat)| <= |s| - |pat|
    decreases |s|
  {
    var i :| 0 <= i <= |s| && OccursAt(s, pat, i);
    if s[..|pat|] != pat {
      assert 1 <= i && i + |pat| <= |s|;
      assert s[1..][i - 1..i - 1 + |pat|] == s[i..i + |pat|];
      assert OccursAt(s[1..], pat, i - 1);
      RemoveShrinks(s[1..], pat);
    }
  }

  /** A string without the pattern passes through unchanged, and only such a string does. */
  lemma {:induction false} RemoveUnchangedIff(s: string, pat: string)
    requires |pat| > 0
    ensures Remove(s, pat) == s <==> !Contains(s, pat)
    decreases |s|
  {
    if Contains(s, pat) {
      RemoveShrinks(s, pat);
    } else if |s| >= |pat| {
      assert !OccursAt(s, pat, 0);
      assert !Contains(s[1..], pat) by {
        forall i | OccursAt(s[1..], pat, i)
          ensures false
        {
          assert s[1..][i..i + |pat|] == s[i + 1..i + 1 + |pat|];
          assert OccursAt(s, pat, i + 1);
        }
      }
      RemoveUnchangedIff(s[1..], pat);
    }
  }

  /** A leading occurrence of the pattern is dropped. */
  lemma RemoveLeading(pat: string, t: string)
    requires |pat| > 0
    ensures Remove(pat + t, pat) == Remove(t, pat)
  {
    assert (pat + t)[..|pat|] == pat;
    assert (pat + t)[|pat|..] == t;
  }

  /**
   * One pass can leave the pattern behind: in "CCN=N==" the inner "CN=" is
   * removed and the surrounding "C" and "N=" then form a new "CN=".
   */
  lemma RemoveMayLeavePattern()
    ensures Remove("CCN=N==", "CN=") == "CN=="
    ensures Contains(Remove("CCN=N==", "CN="), "CN=")
  {
    var s := "CCN=N==";
    assert s[..3][1] != "CN="[1];
    assert s[1..][..3] == "CN=";
    assert s[1..][3..] == "N==";
    assert "N=="[..3] != "CN=";
    assert Remove("N==", "CN=") == "N==" by {
      assert "N=="[1..] == "==";
    }
    assert OccursAt("CN==", "CN=", 0);
  }
}
