/** Character-level string operations used by the table normaliser.

    `Replace` is Python's `str.replace` for a one-character pattern: every
    occurrence is replaced, left to right.  `Strip` is an independent
    reference definition, "delete every character of a given set", and the
    lemmas here relate the two. */
module Text {

  /** `a` can be obtained from `b` by deleting characters, keeping the
      remaining ones in order. */
  predicate IsSubsequence(a: string, b: string)
    decreases |b|
  {
    if |a| == 0 then true
    else if |b| == 0 then false
    else if a[0] == b[0] then IsSubsequence(a[1..], b[1..])
    else IsSubsequence(a, b[1..])
  }

  /** The set of characters occurring in `s`. */
  function CharsOf(s: string): (cs: set<char>)
    ensures forall i :: 0 <= i < |s| ==> s[i] in cs
    ensures forall c :: c in cs ==> c in s
  {
    set c | c in s
  }

  /** Python's `s.replace(pat, sub)` where `pat` is a single character. */
  function Replace(s: string, pat: char, sub: string): (r: string)
    ensures pat !in sub ==> pat !in r
    ensures forall c :: c in r ==> (c in s && c != pat) || c in sub
    ensures sub == "" ==> r == Strip(s, {pat})
    decreases |s|
  {
    if |s| == 0 then ""
    else (if s[0] == pat then sub else [s[0]]) + Replace(s[1..], pat, sub)
  }

  /** Once the replacement's characters are deleted from both sides, the
      result is the input with the pattern deleted: the other characters
      keep their order. */
  lemma {:induction false} ReplaceKeepsOrder(s: string, pat: char, sub: string)
    ensures Strip(Replace(s, pat, sub), CharsOf(sub)) == Strip(s, {pat} + CharsOf(sub))
    decreases |s|
  {
    if |s| > 0 {
      ReplaceKeepsOrder(s[1..], pat, sub);
      ReplaceStep(s, pat, sub, Replace(s[1..], pat, sub));
    }
  }

  /** A one-character string becomes the replacement if it is the pattern
      and stays as it is otherwise. */
  lemma ReplaceOne(c: char, pat: char, sub: string)
    ensures Replace([c], pat, sub) == if c == pat then sub else [c]
  {
  }

  /** `Replace` works character by character: replacing in a concatenation
      is concatenating the replaced parts.  With `ReplaceOne` this fixes the
      result on every input. */
  lemma {:induction false} ReplaceAppend(u: string, v: string, pat: char, sub: string)
    ensures Replace(u + v, pat, sub) == Replace(u, pat, sub) + Replace(v, pat, sub)
    decreases |u|
  {
    if |u| == 0 {
      assert u + v == v;
    } else {
      assert (u + v)[0] == u[0];
      assert (u + v)[1..] == u[1..] + v;
      ReplaceAppend(u[1..], v, pat, sub);
    }
  }

  /** Every character that is neither the pattern nor in the replacement
      occurs in the result exactly as often as in the input. */
  lemma {:induction false} ReplaceKeepsCounts(s: string, pat: char, sub: string)
    ensures forall c :: c != pat && c !in sub ==> multiset(Replace(s, pat, sub))[c] == multiset(s)[c]
    decreases |s|
  {
    if |s| > 0 {
      ReplaceKeepsCounts(s[1..], pat, sub);
      assert s == [s[0]] + s[1..];
    }
  }

  /** One step of `Replace`: the facts its contract promises carry over from
      the replaced tail `rest` to the whole string. */
  lemma ReplaceStep(s: string, pat: char, sub: string, rest: string)
    requires |s| > 0
    requires Strip(rest, CharsOf(sub)) == Strip(s[1..], {pat} + CharsOf(sub))
    ensures Strip((if s[0] == pat then sub else [s[0]]) + rest, CharsOf(sub))
         == Strip(s, {pat} + CharsOf(sub))
  {
    var head := if s[0] == pat then sub else [s[0]];
    var kept := CharsOf(sub);
    assert s == [s[0]] + s[1..];
    StripAppend(head, rest, kept);
    StripAppend([s[0]], s[1..], {pat} + kept);
    if s[0] == pat {
      StripEverything(sub, kept);
    } else {
      assert Strip([s[0]], kept) == Strip([s[0]], {pat} + kept);
    }
  }

  /** `s` with every character of `bad` deleted. */
  function Strip(s: string, bad: set<char>): (r: string)
    ensures forall i :: 0 <= i < |r| ==> r[i] !in bad
    ensures |r| <= |s|
  {
    if |s| == 0 then ""
    else if s[0] in bad then Strip(s[1..], bad)
    else [s[0]] + Strip(s[1..], bad)
  }

  /** Deletion, not replacement: every character outside `bad` is kept as
      often as `s` has it, and in the order of `s`. */
  lemma {:induction false} StripKeepsTheRest(s: string, bad: set<char>)
    ensures forall c :: c !in bad ==> multiset(Strip(s, bad))[c] == multiset(s)[c]
    ensures IsSubsequence(Strip(s, bad), s)
    decreases |s|
  {
    if |s| > 0 {
      assert s == [s[0]] + s[1..];
      var rest := Strip(s[1..], bad);
      StripKeepsTheRest(s[1..], bad);
      if s[0] in bad {
        assert |rest| > 0 ==> rest[0] != s[0];
      } else {
        assert ([s[0]] + rest)[1..] == rest;
      }
    }
  }

  /** Deleting characters never adds occurrences of any character. */
  lemma {:induction false} SubsequenceMultiset(a: string, b: string)
    requires IsSubsequence(a, b)
    ensures multiset(a) <= multiset(b)
    decreases |b|
  {
    if |a| == 0 {
    } else if a[0] == b[0] {
      SubsequenceMultiset(a[1..], b[1..]);
      assert a == [a[0]] + a[1..];
      assert b == [b[0]] + b[1..];
    } else {
      SubsequenceMultiset(a, b[1..]);
      assert b == [b[0]] + b[1..];
    }
  }

  /** The facts of `Strip` and `StripKeepsTheRest` determine the result: any
      string that avoids `bad`, keeps every other character as often as `s`
      has it, and is a subsequence of `s`, is `Strip(s, bad)`. */
  lemma {:induction false} StripCharacterised(s: string, bad: set<char>, r: string)
    requires forall i :: 0 <= i < |r| ==> r[i] !in bad
    requires forall c :: c !in bad ==> multiset(r)[c] == multiset(s)[c]
    requires IsSubsequence(r, s)
    ensures r == Strip(s, bad)
    decreases |s|
  {
    if |s| == 0 {
    } else {
      var x := s[0];
      assert s == [x] + s[1..];
      if x in bad {
        StripCharacterised(s[1..], bad, r);
      } else {
        assert multiset(s)[x] >= 1;
        assert |r| > 0;
        assert r == [r[0]] + r[1..];
        if r[0] == x {
          StripCharacterised(s[1..], bad, r[1..]);
        } else {
          SubsequenceMultiset(r, s[1..]);
          assert false;
        }
      }
    }
  }

  /** Filtering distributes over concatenation. */
  lemma {:induction false} StripAppend(u: string, v: string, bad: set<char>)
    ensures Strip(u + v, bad) == Strip(u, bad) + Strip(v, bad)
    decreases |u|
  {
    if |u| > 0 {
      assert (u + v)[0] == u[0];
      assert (u + v)[1..] == u[1..] + v;
      StripAppend(u[1..], v, bad);
      if u[0] !in bad {
        assert Strip(u, bad) == [u[0]] + Strip(u[1..], bad);
      }
    } else {
      assert u + v == v;
    }
  }

  /** Filtering twice is filtering once by the union. */
  lemma {:induction false} StripStrip(s: string, first: set<char>, second: set<char>)
    ensures Strip(Strip(s, first), second) == Strip(s, first + second)
    decreases |s|
  {
    if |s| > 0 {
      StripStrip(s[1..], first, second);
      if s[0] !in first {
        assert Strip(s, first) == [s[0]] + Strip(s[1..], first);
        StripAppend([s[0]], Strip(s[1..], first), second);
      }
    }
  }

  /** A string with nothing to delete is left as it is. */
  lemma {:induction false} StripNothing(s: string, bad: set<char>)
    requires forall i :: 0 <= i < |s| ==> s[i] !in bad
    ensures Strip(s, bad) == s
    decreases |s|
  {
    if |s| > 0 {
      StripNothing(s[1..], bad);
      assert s == [s[0]] + s[1..];
    }
  }

  /** `StripAppend` with both halves already known. */
  lemma StripJoin(u: string, v: string, bad: set<char>, su: string, sv: string)
    requires Strip(u, bad) == su && Strip(v, bad) == sv
    ensures Strip(u + v, bad) == su + sv
  {
    StripAppend(u, v, bad);
  }

  /** A string made only of deleted characters vanishes. */
  lemma {:induction false} StripEverything(s: string, bad: set<char>)
    requires forall i :: 0 <= i < |s| ==> s[i] in bad
    ensures Strip(s, bad) == ""
    decreases |s|
  {
    if |s| > 0 {
      StripEverything(s[1..], bad);
    }
  }
}
