/**
 * The operations of Python's `str` that the title generator uses, restricted
 * to ASCII: lower-casing, title-casing, substring tests, `split` on one
 * character, `replace` and slicing with a clamped bound.
 */
module Strings {

  predicate IsDigit(c: char) { '0' <= c <= '9' }

  predicate AllDigits(s: string) {
    forall i :: 0 <= i < |s| ==> IsDigit(s[i])
  }

  predicate IsUpper(c: char) { 'A' <= c <= 'Z' }

  predicate IsLower(c: char) { 'a' <= c <= 'z' }

  /** The characters `str.title` treats as cased (ASCII letters only). */
  predicate IsLetter(c: char) { IsUpper(c) || IsLower(c) }

  /** ASCII lower-casing of one character: an upper-case letter becomes lower case, anything else is kept. */
  function LowerChar(c: char): (d: char)
    ensures !IsUpper(d)
    ensures IsLetter(d) <==> IsLetter(c)
    ensures !IsUpper(c) ==> d == c
    ensures UpperChar(d) == UpperChar(c)
  {
    if IsUpper(c) then (c as int + 32) as char else c
  }

  /** ASCII upper-casing of one character: a lower-case letter becomes upper case, anything else is kept. */
  function UpperChar(c: char): (d: char)
    ensures !IsLower(d)
    ensures IsLetter(d) <==> IsLetter(c)
    ensures !IsLower(c) ==> d == c
  {
    if IsLower(c) then (c as int - 32) as char else c
  }

  /** `s.lower()`. */
  function Lower(s: string): (r: string)
    ensures |r| == |s|
    ensures forall i :: 0 <= i < |s| ==> r[i] == LowerChar(s[i])
  {
    seq(|s|, i requires 0 <= i < |s| => LowerChar(s[i]))
  }

  lemma LowerIdempotent(s: string)
    ensures Lower(Lower(s)) == Lower(s)
  {
  }

  // ---------------------------------------------------------------------------
  // Substring tests: `w in s`

  /**
   * `w in s`: the string `w` occurs in `s` as a contiguous piece, found by
   * trying each start from the left (`ContainsIffOccurs` gives the law).
   */
  function Contains(s: string, w: string): (found: bool)
    ensures found ==> |w| <= |s|
    ensures w == [] ==> found
    decreases |s|
  {
    if |w| > |s| then false
    else if s[..|w|] == w then true
    else Contains(s[1..], w)
  }

  /** `w` occurs in `s` starting at index `i`. */
  predicate OccursAt(s: string, w: string, i: int) {
    0 <= i && i + |w| <= |s| && s[i..i + |w|] == w
  }

  /** The left-to-right scan `Contains` agrees with the positional definition. */
  lemma {:induction false} ContainsIffOccurs(s: string, w: string)
    ensures Contains(s, w) <==> exists i :: OccursAt(s, w, i)
    decreases |s|
  {
    if |w| > |s| {
    } else if s[..|w|] == w {
      assert OccursAt(s, w, 0);
    } else {
      ContainsIffOccurs(s[1..], w);
      if Contains(s[1..], w) {
        var i :| OccursAt(s[1..], w, i);
        assert s[1..][i..i + |w|] == s[i + 1..i + 1 + |w|];
        assert OccursAt(s, w, i + 1);
      }
      if i :| OccursAt(s, w, i) {
        assert i != 0;
        assert s[1..][i - 1..i - 1 + |w|] == s[i..i + |w|];
        assert OccursAt(s[1..], w, i - 1);
      }
    }
  }

  // ---------------------------------------------------------------------------
  // `s.split(c)` and `c.join(parts)`

  /** Index of the first `c` in `s`, or `|s|` when `c` does not occur. */
  function IndexOf(s: string, c: char): (i: nat)
    ensures i <= |s|
    ensures i < |s| ==> s[i] == c
    ensures c !in s[..i]
    decreases |s|
  {
    if |s| == 0 then 0
    else if s[0] == c then 0
    else
      var j := IndexOf(s[1..], c);
      assert s[..1 + j] == [s[0]] + s[1..][..j];
      1 + j
  }

  /** The three properties of `IndexOf` determine it. */
  lemma IndexOfUnique(s: string, c: char, i: nat)
    requires i <= |s| && (i < |s| ==> s[i] == c) && c !in s[..i]
    ensures IndexOf(s, c) == i
  {
    var j := IndexOf(s, c);
    forall k | 0 <= k < i ensures s[k] != c { assert s[..i][k] == s[k]; }
    forall k | 0 <= k < j ensures s[k] != c { assert s[..j][k] == s[k]; }
  }

  /** `s.split(c)`: at least one part, and no part contains the separator. */
  function Split(s: string, c: char): (parts: seq<string>)
    ensures |parts| >= 1
    ensures forall k :: 0 <= k < |parts| ==> c !in parts[k]
    decreases |s|
  {
    var i := IndexOf(s, c);
    if i == |s| then [s]
    else [s[..i]] + Split(s[i + 1..], c)
  }

  /** A string without the separator splits into itself alone. */
  lemma SplitWithoutSeparator(s: string, c: char)
    requires c !in s
    ensures Split(s, c) == [s]
  {
    IndexOfUnique(s, c, |s|);
  }

  /** Splitting at the first separator: the part before it, then the split of the rest. */
  lemma SplitAtFirst(s: string, c: char)
    requires IndexOf(s, c) < |s|
    ensures Split(s, c) == [s[..IndexOf(s, c)]] + Split(s[IndexOf(s, c) + 1..], c)
  {
  }

  /** `c.join(parts)`. */
  function Join(parts: seq<string>, c: char): string
    requires |parts| >= 1
    decreases |parts|
  {
    if |parts| == 1 then parts[0] else parts[0] + [c] + Join(parts[1..], c)
  }

  lemma JoinPastHead(head: string, parts: seq<string>, c: char)
    requires |parts| >= 1
    ensures Join([head] + parts, c) == head + [c] + Join(parts, c)
  {
    assert ([head] + parts)[1..] == parts;
  }

  /** Joining the parts of a split with the same separator gives back the string. */
  lemma {:induction false} JoinSplit(s: string, c: char)
    ensures Join(Split(s, c), c) == s
    decreases |s|
  {
    var i := IndexOf(s, c);
    if i < |s| {
      JoinSplit(s[i + 1..], c);
      SplitAtFirst(s, c);
      JoinPastHead(s[..i], Split(s[i + 1..], c), c);
      assert s == s[..i] + [c] + s[i + 1..];
    } else {
      assert Split(s, c) == [s];
    }
  }

  /** A separator-free piece before a separator is the first part. */
  lemma SplitAfterFreePiece(p: string, q: string, c: char)
    requires c !in p
    ensures Split(p + [c] + q, c) == [p] + Split(q, c)
  {
    var s := p + [c] + q;
    assert s[..|p|] == p;
    IndexOfUnique(s, c, |p|);
    SplitAtFirst(s, c);
    assert s[|p| + 1..] == q;
  }

  /** Past a separator inside `p`, `p + [c] + q` and `p` have the same first part. */
  lemma SplitPastFirstInPiece(p: string, q: string, c: char, i: nat)
    requires i == IndexOf(p, c) < |p|
    ensures Split(p + [c] + q, c) == [p[..i]] + Split(p[i + 1..] + [c] + q, c)
  {
    var s := p + [c] + q;
    assert s[..i] == p[..i];
    IndexOfUnique(s, c, i);
    SplitAtFirst(s, c);
    assert s[i + 1..] == p[i + 1..] + [c] + q;
  }

  /** Splitting at a separator splits the two sides independently. */
  lemma {:induction false} SplitConcat(p: string, q: string, c: char)
    ensures Split(p + [c] + q, c) == Split(p, c) + Split(q, c)
    decreases |p|
  {
    var i := IndexOf(p, c);
    if i == |p| {
      SplitAfterFreePiece(p, q, c);
      SplitWithoutSeparator(p, c);
    } else {
      SplitPastFirstInPiece(p, q, c, i);
      SplitAtFirst(p, c);
      SplitConcat(p[i + 1..], q, c);
      assert [p[..i]] + (Split(p[i + 1..], c) + Split(q, c)) == [p[..i]] + Split(p[i + 1..], c) + Split(q, c);
    }
  }

  /** Splitting the join of separator-free parts gives back the parts. */
  lemma {:induction false} SplitJoin(parts: seq<string>, c: char)
    requires |parts| >= 1
    requires forall k :: 0 <= k < |parts| ==> c !in parts[k]
    ensures Split(Join(parts, c), c) == parts
    decreases |parts|
  {
    SplitWithoutSeparator(parts[0], c);
    if |parts| > 1 {
      SplitConcat(parts[0], Join(parts[1..], c), c);
      SplitJoin(parts[1..], c);
    }
  }

  /** `parts[-1]`. */
  function Last(parts: seq<string>): string
    requires |parts| >= 1
  {
    parts[|parts| - 1]
  }

  lemma LastPastHead(head: string, parts: seq<string>)
    requires |parts| >= 1
    ensures Last([head] + parts) == Last(parts)
  {
  }

  /** Past the first separator, the last part of a split is the last part of the rest. */
  lemma SplitLastOfRest(s: string, c: char, i: nat)
    requires i == IndexOf(s, c) < |s|
    ensures Last(Split(s, c)) == Last(Split(s[i + 1..], c))
  {
    SplitAtFirst(s, c);
    LastPastHead(s[..i], Split(s[i + 1..], c));
  }

  /** A suffix of `s[i + 1..]` that follows a separator there, or is all of it, follows one in `s`. */
  lemma SuffixPastCut(s: string, i: nat, c: char, last: string)
    requires i < |s| && s[i] == c
    requires |last| <= |s| - i - 1 && s[i + 1..][|s| - i - 1 - |last|..] == last
    requires |last| < |s| - i - 1 ==> s[i + 1..][|s| - i - 2 - |last|] == c
    ensures |last| < |s| && s[|s| - |last|..] == last && s[|s| - |last| - 1] == c
  {
    assert s[|s| - |last|..] == s[i + 1..][|s| - i - 1 - |last|..];
  }

  /** The last part of a split is the longest suffix free of the separator. */
  lemma {:induction false} LastPartIsSuffix(s: string, c: char)
    ensures var last := Last(Split(s, c));
      && |last| <= |s|
      && s[|s| - |last|..] == last
      && (|last| < |s| ==> s[|s| - |last| - 1] == c)
    decreases |s|
  {
    var i := IndexOf(s, c);
    if i < |s| {
      LastPartIsSuffix(s[i + 1..], c);
      SplitLastOfRest(s, c, i);
      SuffixPastCut(s, i, c, Last(Split(s[i + 1..], c)));
    } else {
      assert Last(Split(s, c)) == s;
    }
  }

  // ---------------------------------------------------------------------------
  // `s.replace(...)` and `s[:n]`

  /**
   * `s.replace(pat, "")`: scanning from the left, every occurrence of `pat`
   * that does not overlap one already removed is deleted.
   */
  function RemoveAll(s: string, pat: string): (r: string)
    requires pat != ""
    ensures |r| <= |s|
    decreases |s|
  {
    if |s| == 0 then ""
    else if |pat| <= |s| && s[..|pat|] == pat then RemoveAll(s[|pat|..], pat)
    else [s[0]] + RemoveAll(s[1..], pat)
  }

  /** A string in which `pat` does not occur is left unchanged. */
  lemma {:induction false} RemoveAllAbsent(s: string, pat: string)
    requires pat != "" && !Contains(s, pat)
    ensures RemoveAll(s, pat) == s
    decreases |s|
  {
    if |s| > 0 {
      RemoveAllAbsent(s[1..], pat);
    }
  }

  /** `s.replace(a, b)` for single characters. */
  function ReplaceChar(s: string, a: char, b: char): (r: string)
    ensures |r| == |s|
    ensures a != b ==> a !in r
    ensures forall i :: 0 <= i < |s| && s[i] != a ==> r[i] == s[i]
    ensures forall i :: 0 <= i < |s| && s[i] == a ==> r[i] == b
  {
    seq(|s|, i requires 0 <= i < |s| => if s[i] == a then b else s[i])
  }

  /** `s[:n]`: the first `n` characters, or all of `s` when it is shorter. */
  function Take(s: string, n: nat): (r: string)
    ensures |r| == if |s| <= n then |s| else n
    ensures r == s[..|r|]
  {
    if |s| <= n then s else s[..n]
  }

  // ---------------------------------------------------------------------------
  // `s.title()`

  /** `s.title()`: a letter is upper-cased when it does not follow a letter, lower-cased when it does. */
  function TitleCase(s: string): (r: string)
    ensures |r| == |s|
    ensures forall i :: 0 <= i < |s| ==> r[i] == if i > 0 && IsLetter(s[i - 1]) then LowerChar(s[i]) else UpperChar(s[i])
  {
    TitleFromEach(s, false);
    TitleFrom(s, false)
  }

  /** Title-cases `s` when the character before it was a letter exactly when `afterLetter`. */
  function TitleFrom(s: string, afterLetter: bool): (r: string)
    ensures |r| == |s|
    decreases |s|
  {
    if s == [] then []
    else [if afterLetter then LowerChar(s[0]) else UpperChar(s[0])] + TitleFrom(s[1..], IsLetter(s[0]))
  }

  lemma {:induction false} TitleFromAt(s: string, afterLetter: bool, i: nat)
    requires i < |s|
    ensures TitleFrom(s, afterLetter)[i] ==
      if (if i == 0 then afterLetter else IsLetter(s[i - 1])) then LowerChar(s[i]) else UpperChar(s[i])
    decreases |s|
  {
    if i > 0 {
      TitleFromAt(s[1..], IsLetter(s[0]), i - 1);
    }
  }

  lemma TitleFromEach(s: string, afterLetter: bool)
    ensures forall i :: 0 <= i < |s| ==>
      TitleFrom(s, afterLetter)[i] == if (if i == 0 then afterLetter else IsLetter(s[i - 1])) then LowerChar(s[i]) else UpperChar(s[i])
  {
    forall i | 0 <= i < |s|
      ensures TitleFrom(s, afterLetter)[i] ==
        if (if i == 0 then afterLetter else IsLetter(s[i - 1])) then LowerChar(s[i]) else UpperChar(s[i])
    {
      TitleFromAt(s, afterLetter, i);
    }
  }

  /** Each character of `s.title()` depends only on itself and on whether a letter precedes it. */
  lemma TitleCaseAt(s: string, i: nat)
    requires i < |s|
    ensures |TitleCase(s)| == |s|
    ensures TitleCase(s)[i] == if i > 0 && IsLetter(s[i - 1]) then LowerChar(s[i]) else UpperChar(s[i])
  {
    TitleFromAt(s, false, i);
  }

  /** Title-casing a concatenation: the second part starts after whatever the first part ends with. */
  lemma {:induction false} TitleFromConcat(a: string, b: string, afterLetter: bool)
    ensures TitleFrom(a + b, afterLetter) ==
      TitleFrom(a, afterLetter) + TitleFrom(b, if a == [] then afterLetter else IsLetter(a[|a| - 1]))
    decreases |a|
  {
    if a == [] {
      assert a + b == b;
    } else {
      assert (a + b)[0] == a[0] && (a + b)[1..] == a[1..] + b;
      TitleFromConcat(a[1..], b, IsLetter(a[0]));
      if a[1..] != [] {
        assert a[1..][|a[1..]| - 1] == a[|a| - 1];
      }
    }
  }

  /** Words separated by a space are title-cased independently. */
  lemma TitleCaseWords(a: string, b: string)
    ensures TitleCase(a + " " + b) == TitleCase(a) + " " + TitleCase(b)
  {
    assert a + " " + b == a + (" " + b);
    TitleFromConcat(a, " " + b, false);
    var x := if a == [] then false else IsLetter(a[|a| - 1]);
    assert TitleFrom(" " + b, x) == " " + TitleFrom(b, false) by {
      assert (" " + b)[0] == ' ' && (" " + b)[1..] == b;
      assert LowerChar(' ') == ' ' == UpperChar(' ') && !IsLetter(' ');
    }
  }

  /** Title-casing twice is title-casing once. */
  lemma TitleCaseIdempotent(s: string)
    ensures TitleCase(TitleCase(s)) == TitleCase(s)
  {
    var t := TitleCase(s);
    forall i | 0 <= i < |s|
      ensures TitleCase(t)[i] == t[i]
    {
      TitleCaseAt(s, i);
      TitleCaseAt(t, i);
      if i > 0 {
        TitleCaseAt(s, i - 1);
      }
    }
  }
}
