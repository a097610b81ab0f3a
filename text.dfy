/**
 * The Kotlin string operations the converter relies on: `trimEnd`, `trim`
 * and `replace` (a left-to-right, non-overlapping replace-all of a non-empty
 * literal), with the facts about them that the escaping proofs need.
 */
module Text {

  /** Kotlin's `Char.isWhitespace` on the JVM: `Character.isWhitespace(c) || Character.isSpaceChar(c)`. */
  predicate IsWhitespace(c: char) {
    c == ' ' || c == '\t' || c == '\n' || c == '\U{000B}' || c == '\U{000C}' || c == '\r'
    || ('\U{001C}' <= c <= '\U{001F}')
    || c == '\U{00A0}' || c == '\U{1680}'
    || ('\U{2000}' <= c <= '\U{200A}')
    || c == '\U{2028}' || c == '\U{2029}' || c == '\U{202F}' || c == '\U{205F}' || c == '\U{3000}'
  }

  predicate AllWhitespace(s: string) {
    forall i :: 0 <= i < |s| ==> IsWhitespace(s[i])
  }

  predicate HasNonWhitespace(s: string) {
    exists i :: 0 <= i < |s| && !IsWhitespace(s[i])
  }

  function Last(s: string): char
    requires s != []
  {
    s[|s| - 1]
  }

  /** `String.trimEnd()`: the longest prefix that does not end in whitespace. */
  function TrimEnd(s: string): (r: string)
    ensures r <= s
    ensures AllWhitespace(s[|r|..])
    ensures r == [] || !IsWhitespace(r[|r| - 1])
  {
    if s == [] || !IsWhitespace(s[|s| - 1]) then s
    else
      var r := TrimEnd(s[..|s| - 1]);
      assert s[|r|..] == s[..|s| - 1][|r|..] + [s[|s| - 1]];
      r
  }

  /** The first index at or after `i` that does not hold whitespace, or `|s|`. */
  function SkipWhitespace(s: string, i: nat): (k: nat)
    requires i <= |s|
    ensures i <= k <= |s|
    ensures forall m :: i <= m < k ==> IsWhitespace(s[m])
    ensures k == |s| || !IsWhitespace(s[k])
    decreases |s| - i
  {
    if i == |s| || !IsWhitespace(s[i]) then i else SkipWhitespace(s, i + 1)
  }

  /** The least `k` in `lo..j` such that `s[k..j]` is all whitespace. */
  function SkipWhitespaceBack(s: string, lo: nat, j: nat): (k: nat)
    requires lo <= j <= |s|
    ensures lo <= k <= j
    ensures forall m :: k <= m < j ==> IsWhitespace(s[m])
    ensures k == lo || !IsWhitespace(s[k - 1])
    decreases j - lo
  {
    if j == lo || !IsWhitespace(s[j - 1]) then j else SkipWhitespaceBack(s, lo, j - 1)
  }

  /** `String.trim()`: whitespace removed at both ends, and nothing else. */
  function Trim(s: string): (r: string)
    ensures r == [] || (!IsWhitespace(r[0]) && !IsWhitespace(Last(r)))
    ensures exists i, j :: 0 <= i <= j <= |s| && r == s[i..j]
                           && (forall m :: 0 <= m < i ==> IsWhitespace(s[m]))
                           && (forall m :: j <= m < |s| ==> IsWhitespace(s[m]))
  {
    var i := SkipWhitespace(s, 0);
    var j := SkipWhitespaceBack(s, i, |s|);
    assert i < j ==> !IsWhitespace(s[i]);
    s[i..j]
  }

  /** A string with no whitespace at either end is its own trim; so trimming twice trims once. */
  lemma TrimTrimmed(s: string)
    requires s == [] || (!IsWhitespace(s[0]) && !IsWhitespace(Last(s)))
    ensures Trim(s) == s
  {
    if s != [] {
      assert SkipWhitespace(s, 0) == 0;
      assert SkipWhitespaceBack(s, 0, |s|) == |s|;
    }
  }

  lemma TrimIdempotent(s: string)
    ensures Trim(Trim(s)) == Trim(s)
  {
    TrimTrimmed(Trim(s));
  }

  /** `s` holds `pat` starting at index `i`. */
  predicate MatchesAt(s: string, i: int, pat: string) {
    0 <= i <= |s| && pat <= s[i..]
  }

  /** `String.replace(pat, rep)` for a non-empty `pat`: scan left to right, replace each match, resume after it. */
  function Replace(s: string, pat: string, rep: string): string
    requires pat != []
    decreases |s|
  {
    if |s| < |pat| then s
    else if pat <= s then rep + Replace(s[|pat|..], pat, rep)
    else [s[0]] + Replace(s[1..], pat, rep)
  }

  lemma MatchesAtShift(s: string, k: int, i: int, pat: string)
    requires 0 <= k <= |s| && 0 <= i
    ensures MatchesAt(s, i + k, pat) == MatchesAt(s[k..], i, pat)
  {
    if i + k <= |s| {
      assert s[k..][i..] == s[i + k..];
    }
  }

  /** A mismatch at offset `j` rules out a match at `i`. */
  lemma MismatchAt(s: string, i: int, pat: string, j: int)
    requires 0 <= i && 0 <= j < |pat| && i + j < |s| && s[i + j] != pat[j]
    ensures !MatchesAt(s, i, pat)
  {
    assert s[i..][j] == s[i + j];
  }

  lemma ReplaceAtMatch(rest: string, pat: string, rep: string)
    requires pat != []
    ensures Replace(pat + rest, pat, rep) == rep + Replace(rest, pat, rep)
  {
    assert (pat + rest)[|pat|..] == rest;
  }

  /** A prefix in which no match starts is copied unchanged. */
  lemma {:induction false} ReplaceSkip(a: string, b: string, pat: string, rep: string)
    requires pat != []
    requires forall i :: 0 <= i < |a| ==> !MatchesAt(a + b, i, pat)
    ensures Replace(a + b, pat, rep) == a + Replace(b, pat, rep)
    decreases |a|
  {
    var s := a + b;
    if a == [] {
      assert s == b;
    } else {
      assert !MatchesAt(s, 0, pat) && s[0..] == s;
      if |s| >= |pat| {
        var t := a[1..];
        assert s[1..] == t + b;
        forall i | 0 <= i < |t|
          ensures !MatchesAt(t + b, i, pat)
        {
          MatchesAtShift(s, 1, i, pat);
        }
        ReplaceSkip(t, b, pat, rep);
        assert Replace(s, pat, rep) == [s[0]] + Replace(t + b, pat, rep);
        assert a == [a[0]] + t;
      } else {
        assert Replace(s, pat, rep) == s && Replace(b, pat, rep) == b;
      }
    }
  }

  /** Without a match across the boundary, replacing in `a + b` replaces in each part. */
  lemma {:induction false} ReplaceAppend(a: string, b: string, pat: string, rep: string)
    requires pat != []
    requires forall i :: 0 <= i < |a| < i + |pat| ==> !MatchesAt(a + b, i, pat)
    ensures Replace(a + b, pat, rep) == Replace(a, pat, rep) + Replace(b, pat, rep)
    decreases |a|, 1
  {
    var s := a + b;
    if a == [] {
      assert s == b;
    } else if |s| < |pat| {
      assert Replace(s, pat, rep) == s && Replace(a, pat, rep) == a && Replace(b, pat, rep) == b;
    } else if pat <= s {
      ReplaceAppendMatch(a, b, pat, rep);
    } else {
      ReplaceAppendNoMatch(a, b, pat, rep);
    }
  }

  lemma {:induction false} ReplaceAppendMatch(a: string, b: string, pat: string, rep: string)
    requires pat != [] && a != [] && |a + b| >= |pat| && pat <= a + b
    requires forall i :: 0 <= i < |a| < i + |pat| ==> !MatchesAt(a + b, i, pat)
    ensures Replace(a + b, pat, rep) == Replace(a, pat, rep) + Replace(b, pat, rep)
    decreases |a|, 0
  {
    var s := a + b;
    assert s[0..] == s && MatchesAt(s, 0, pat);
    assert |pat| <= |a|;
    assert pat <= a;
    var a' := a[|pat|..];
    assert s[|pat|..] == a' + b;
    forall i | 0 <= i < |a'| < i + |pat|
      ensures !MatchesAt(a' + b, i, pat)
    {
      MatchesAtShift(s, |pat|, i, pat);
    }
    ReplaceAppend(a', b, pat, rep);
    assert Replace(s, pat, rep) == rep + Replace(a' + b, pat, rep);
    assert Replace(a, pat, rep) == rep + Replace(a', pat, rep);
  }

  lemma {:induction false} ReplaceAppendNoMatch(a: string, b: string, pat: string, rep: string)
    requires pat != [] && a != [] && |a + b| >= |pat| && !(pat <= a + b)
    requires forall i :: 0 <= i < |a| < i + |pat| ==> !MatchesAt(a + b, i, pat)
    ensures Replace(a + b, pat, rep) == Replace(a, pat, rep) + Replace(b, pat, rep)
    decreases |a|, 0
  {
    var s := a + b;
    var t := a[1..];
    assert s[1..] == t + b;
    forall i | 0 <= i < |t| < i + |pat|
      ensures !MatchesAt(t + b, i, pat)
    {
      MatchesAtShift(s, 1, i, pat);
    }
    ReplaceAppend(t, b, pat, rep);
    assert Replace(s, pat, rep) == [s[0]] + Replace(t + b, pat, rep);
    if |a| >= |pat| {
      assert !(pat <= a);
      assert Replace(a, pat, rep) == [a[0]] + Replace(t, pat, rep);
    } else {
      assert Replace(a, pat, rep) == a;
      assert Replace(t, pat, rep) == t;
    }
  }

  /** A string in which the first character of `pat` never occurs is left as it is. */
  lemma ReplaceAbsent(s: string, pat: string, rep: string)
    requires pat != []
    requires forall i :: 0 <= i < |s| ==> s[i] != pat[0]
    ensures Replace(s, pat, rep) == s
  {
    forall i | 0 <= i < |s|
      ensures !MatchesAt(s + [], i, pat)
    {
      MismatchAt(s + [], i, pat, 0);
    }
    ReplaceSkip(s, [], pat, rep);
    assert s + [] == s;
  }

  /** The last character of a replaced non-empty string is the input's last character or the replacement's. */
  lemma {:induction false} ReplaceLast(s: string, pat: string, rep: string)
    requires pat != [] && s != [] && rep != []
    ensures Replace(s, pat, rep) != []
    ensures Last(Replace(s, pat, rep)) == Last(s) || Last(Replace(s, pat, rep)) == Last(rep)
    decreases |s|
  {
    var r := Replace(s, pat, rep);
    if |s| < |pat| {
      assert r == s;
    } else if pat <= s {
      var t := s[|pat|..];
      assert r == rep + Replace(t, pat, rep);
      if t != [] {
        ReplaceLast(t, pat, rep);
        assert Last(t) == Last(s);
        assert Last(r) == Last(Replace(t, pat, rep));
      } else {
        assert Replace(t, pat, rep) == [];
        assert r == rep;
      }
    } else {
      var t := s[1..];
      assert r == [s[0]] + Replace(t, pat, rep);
      if t != [] {
        ReplaceLast(t, pat, rep);
        assert Last(t) == Last(s);
        assert Last(r) == Last(Replace(t, pat, rep));
      } else {
        assert Replace(t, pat, rep) == [];
        assert r == [s[0]];
      }
    }
  }

  /** A prefix is left in place by `trimEnd` when something that is not blank follows it. */
  lemma {:induction false} TrimEndAppend(a: string, b: string)
    requires HasNonWhitespace(b)
    ensures TrimEnd(a + b) == a + TrimEnd(b)
    decreases |b|
  {
    var s := a + b;
    if !IsWhitespace(s[|s| - 1]) {
      assert s[|s| - 1] == b[|b| - 1];
    } else {
      assert s[..|s| - 1] == a + b[..|b| - 1];
      var i :| 0 <= i < |b| && !IsWhitespace(b[i]);
      assert i < |b| - 1;
      assert b[..|b| - 1][i] == b[i];
      TrimEndAppend(a, b[..|b| - 1]);
    }
  }

  /** Everything up to a last character that is not blank survives `trimEnd`. */
  lemma {:induction false} TrimEndAfter(p: string, b: string)
    requires p != [] && !IsWhitespace(Last(p))
    ensures TrimEnd(p + b) == p + TrimEnd(b)
    decreases |b|
  {
    if b == [] {
      assert p + b == p;
    } else {
      var s := p + b;
      assert Last(s) == Last(b);
      if IsWhitespace(Last(b)) {
        var b' := b[..|b| - 1];
        assert s[..|s| - 1] == p + b';
        assert TrimEnd(s) == TrimEnd(p + b');
        assert TrimEnd(b) == TrimEnd(b');
        TrimEndAfter(p, b');
      }
    }
  }

  /** For a two-character pattern, only a match at the last character of `a` could cross into `b`. */
  lemma ReplaceAfter(a: string, b: string, pat: string, rep: string)
    requires |pat| == 2
    requires a == [] || Last(a) != pat[0]
    ensures Replace(a + b, pat, rep) == Replace(a, pat, rep) + Replace(b, pat, rep)
  {
    forall i | 0 <= i < |a| < i + |pat|
      ensures !MatchesAt(a + b, i, pat)
    {
      assert i == |a| - 1;
      MismatchAt(a + b, i, pat, 0);
    }
    ReplaceAppend(a, b, pat, rep);
  }

  /** `e` has no match of `pat` starting inside it, whatever follows: `mismatch` is where a match at 0 fails. */
  lemma NoMatchInside(e: string, rest: string, pat: string, rep: string, mismatch: nat)
    requires pat != [] && e != []
    requires mismatch < |e| && mismatch < |pat| && e[mismatch] != pat[mismatch]
    requires forall i :: 0 < i < |e| ==> e[i] != pat[0]
    ensures Replace(e + rest, pat, rep) == e + Replace(rest, pat, rep)
  {
    forall i | 0 <= i < |e|
      ensures !MatchesAt(e + rest, i, pat)
    {
      if i == 0 {
        MismatchAt(e + rest, 0, pat, mismatch);
      } else {
        MismatchAt(e + rest, i, pat, 0);
      }
    }
    ReplaceSkip(e, rest, pat, rep);
  }

  /** A piece `x` in which no match of a two-character `pat` starts, and which `a` does not run into, is copied through. */
  lemma ReplaceAround(a: string, x: string, b: string, pat: string, rep: string, mismatch: nat)
    requires |pat| == 2 && (a == [] || Last(a) != pat[0])
    requires x != [] && mismatch < |x| && mismatch < |pat| && x[mismatch] != pat[mismatch]
    requires forall i :: 0 < i < |x| ==> x[i] != pat[0]
    ensures Replace(a + (x + b), pat, rep) == Replace(a, pat, rep) + (x + Replace(b, pat, rep))
  {
    ReplaceAfter(a, x + b, pat, rep);
    NoMatchInside(x, b, pat, rep, mismatch);
  }
}
