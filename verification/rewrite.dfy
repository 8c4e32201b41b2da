/**
 The text rewrite of the content script: the expression
 `s.replace(/rr/gi, 'l').replace(/r(?=\w)/gi, 'l')`, which is applied to every
 attribute value and text node the tree walker visits.

 Both regular expressions are global and case-insensitive but not Unicode
 (`u` flag absent), so `r` matches exactly `r` and `R`, and `\w` is the ASCII
 class `[A-Za-z0-9_]`. A global `String.prototype.replace` substitutes every
 leftmost, non-overlapping match, resuming the search after each match.
 */
module Rewrite {

  /** The characters the case-insensitive pattern `r` matches. */
  predicate IsR(c: char) {
    c == 'r' || c == 'R'
  }

  /** ECMAScript `\w` without the `u` flag. */
  predicate IsWordChar(c: char) {
    ('a' <= c <= 'z') || ('A' <= c <= 'Z') || ('0' <= c <= '9') || c == '_'
  }

  /** The two patterns of the rewrite: `/rr/gi` and `/r(?=\w)/gi`. */
  datatype Pattern = DoubleR | RBeforeWord

  /** The replacement text of both substitutions. */
  const Replacement: char := 'l'

  /** The number of characters `p` consumes when it matches at position `i`
      of `s`, or 0 when it does not match there. The lookahead of
      `RBeforeWord` reads the next character but does not consume it. */
  function MatchAt(p: Pattern, s: string, i: nat): (n: nat)
    requires i < |s|
    ensures i + n <= |s|
    ensures n <= 2 && (n == 2 ==> p == DoubleR)
    ensures n > 0 ==> IsR(s[i]) && i + 1 < |s| && IsWordChar(s[i + 1])
  {
    match p
    case DoubleR => if i + 1 < |s| && IsR(s[i]) && IsR(s[i + 1]) then 2 else 0
    case RBeforeWord => if i + 1 < |s| && IsR(s[i]) && IsWordChar(s[i + 1]) then 1 else 0
  }

  /** What a global replace emits from position `i` of `s` on: at each
      position, a match is replaced by one `l` and the scan resumes after it;
      otherwise the character is copied. Matches are therefore leftmost and
      non-overlapping, and every lookahead reads the original string. */
  function ReplaceFrom(p: Pattern, s: string, i: nat): (r: string)
    requires i <= |s|
    decreases |s| - i
  {
    if i == |s| then ""
    else if MatchAt(p, s, i) > 0 then [Replacement] + ReplaceFrom(p, s, i + MatchAt(p, s, i))
    else [s[i]] + ReplaceFrom(p, s, i + 1)
  }

  /** Each step of the replace consumes one or two characters and emits one. */
  lemma {:induction false} ReplaceFromLength(p: Pattern, s: string, i: nat)
    requires i <= |s|
    ensures |ReplaceFrom(p, s, i)| <= |s| - i <= 2 * |ReplaceFrom(p, s, i)|
    decreases |s| - i
  {
    if i < |s| {
      ReplaceFromLength(p, s, i + (if MatchAt(p, s, i) > 0 then MatchAt(p, s, i) else 1));
    }
  }

  /** `s.replace(p, 'l')` for a global pattern `p`. */
  function ReplaceAll(p: Pattern, s: string): (r: string)
    ensures |r| <= |s| <= 2 * |r|
  {
    ReplaceFromLength(p, s, 0);
    ReplaceFrom(p, s, 0)
  }

  /** `.replace(/rr/gi, 'l')`. It leaves no `rr` behind: after a copied `r`
      comes a character that is not `r`, or a replacement `l`. */
  function Pass1(s: string): (r: string)
    ensures NoDoubleR(r)
  {
    Pass1FromNoDoubleR(s, 0);
    ReplaceAll(DoubleR, s)
  }

  /** `.replace(/r(?=\w)/gi, 'l')`: it keeps the length and rewrites exactly
      the `r`/`R` characters whose next character is a word character. */
  function Pass2(s: string): (r: string)
    ensures |r| == |s|
    ensures forall i :: 0 <= i < |s| ==> r[i] == Pass2At(s, i)
  {
    Pass2FromPointwise(s, 0);
    var r := ReplaceAll(RBeforeWord, s);
    assert forall i :: 0 <= i < |s| ==> r[i - 0] == Pass2At(s, i);
    r
  }

  /** The rewrite applied to attribute values and text nodes. Its output has
      no `r` before a word character, hence no `rr` either. */
  function Transform(s: string): (r: string)
    ensures Settled(r)
    ensures NoDoubleR(r)
  {
    Pass2Settles(Pass1(s));
    SettledNoDoubleR(Pass2(Pass1(s)));
    Pass2(Pass1(s))
  }

  /** No two adjacent characters that `/rr/i` matches. */
  predicate NoDoubleR(s: string) {
    forall i :: 0 <= i < |s| - 1 ==> !(IsR(s[i]) && IsR(s[i + 1]))
  }

  /** No `r`/`R` immediately followed by a word character: the strings on
      which the rewrite has nothing left to do. */
  predicate Settled(s: string) {
    forall i :: 0 <= i < |s| - 1 ==> !(IsR(s[i]) && IsWordChar(s[i + 1]))
  }

  /** The character at position `i` of the second pass's output, described
      position by position: the lookahead sees the original next character. */
  function Pass2At(s: string, i: nat): char
    requires i < |s|
  {
    if IsR(s[i]) && i + 1 < |s| && IsWordChar(s[i + 1]) then Replacement else s[i]
  }

  /** `s` with every `r`, `R` and `l` removed: what the rewrite never touches. */
  function Untouched(s: string): string {
    if |s| == 0 then ""
    else if IsR(s[0]) || s[0] == Replacement then Untouched(s[1..])
    else [s[0]] + Untouched(s[1..])
  }

  /** The number of `r`/`R` characters in `s`. */
  function CountR(s: string): nat {
    if |s| == 0 then 0
    else (if IsR(s[0]) then 1 else 0) + CountR(s[1..])
  }


  // ---------------------------------------------------------------------------
  // Sequence helpers

  lemma Assoc(a: string, b: string, c: string)
    ensures a + (b + c) == (a + b) + c
  {
  }

  lemma SliceCons(s: string, i: nat, m: nat)
    requires i < m <= |s|
    ensures s[i..m] == [s[i]] + s[i + 1..m]
  {
  }

  lemma UntouchedCons(c: char, x: string)
    ensures Untouched([c] + x) == if IsR(c) || c == Replacement then Untouched(x) else [c] + Untouched(x)
  {
    assert ([c] + x)[0] == c && ([c] + x)[1..] == x;
  }

  lemma CountRCons(c: char, x: string)
    ensures CountR([c] + x) == (if IsR(c) then 1 else 0) + CountR(x)
  {
    assert ([c] + x)[0] == c && ([c] + x)[1..] == x;
  }

  lemma SuffixCons(s: string, i: nat)
    requires i < |s|
    ensures s[i..] == [s[i]] + s[i + 1..]
  {
  }

  // ---------------------------------------------------------------------------
  // The global replace loop of ECMAScript

  /** Where `p` matches nowhere in `[a, m)`, the replace copies `s[a..m]`. */
  lemma {:induction false} ReplaceFromSkip(p: Pattern, s: string, a: nat, m: nat)
    requires a <= m <= |s|
    requires forall j :: a <= j < m ==> MatchAt(p, s, j) == 0
    ensures ReplaceFrom(p, s, a) == s[a..m] + ReplaceFrom(p, s, m)
    decreases m - a
  {
    if a < m {
      ReplaceFromSkip(p, s, a + 1, m);
      SliceCons(s, a, m);
      Assoc([s[a]], s[a + 1..m], ReplaceFrom(p, s, m));
    }
  }

  /** The search of a global regular expression from `lastIndex`: the first
      position at or after it where `p` matches, or `|s|` when there is none. */
  method NextMatch(p: Pattern, s: string, lastIndex: nat) returns (m: nat)
    requires lastIndex <= |s|
    ensures lastIndex <= m <= |s|
    ensures m < |s| ==> MatchAt(p, s, m) > 0
    ensures forall j :: lastIndex <= j < m ==> MatchAt(p, s, j) == 0
  {
    m := lastIndex;
    while m < |s| && MatchAt(p, s, m) == 0
      invariant lastIndex <= m <= |s|
      invariant forall j :: lastIndex <= j < m ==> MatchAt(p, s, j) == 0
    {
      m := m + 1;
    }
  }

  /** One round of the replace loop: search from `lastIndex` for the leftmost
      match `m`; on a match, the text before it and the replacement, with the
      search to resume after the match; otherwise the rest of the string. */
  method ScanRound(p: Pattern, s: string, lastIndex: nat) returns (chunk: string, next: nat, found: bool, m: nat)
    requires lastIndex <= |s|
    ensures lastIndex <= m <= |s|
    ensures forall j :: lastIndex <= j < m ==> MatchAt(p, s, j) == 0
    ensures found ==> m < |s| && MatchAt(p, s, m) > 0
    ensures found ==> chunk == s[lastIndex..m] + [Replacement] && next == m + MatchAt(p, s, m)
    ensures !found ==> m == |s| && chunk == s[lastIndex..] && next == |s|
    ensures lastIndex <= next <= |s|
    ensures found ==> lastIndex < next && ReplaceFrom(p, s, lastIndex) == chunk + ReplaceFrom(p, s, next)
    ensures !found ==> ReplaceFrom(p, s, lastIndex) == chunk
  {
    m := NextMatch(p, s, lastIndex);
    ReplaceFromSkip(p, s, lastIndex, m);
    if m == |s| {
      chunk, next, found := s[lastIndex..], |s|, false;
    } else {
      chunk, next, found := s[lastIndex..m] + [Replacement], m + MatchAt(p, s, m), true;
      Assoc(s[lastIndex..m], [Replacement], ReplaceFrom(p, s, next));
    }
  }

  /** The replace algorithm as the engine runs it: search for the next match
      from `lastIndex`, copy the text before it, emit the replacement and
      resume after the match; copy the tail once no match is left. */
  method ReplaceAllScan(p: Pattern, s: string) returns (r: string)
    ensures r == ReplaceAll(p, s)
  {
    r := "";
    var lastIndex := 0;
    var found := true;
    while found
      invariant lastIndex <= |s|
      invariant found ==> r + ReplaceFrom(p, s, lastIndex) == ReplaceAll(p, s)
      invariant !found ==> r == ReplaceAll(p, s)
      decreases |s| - lastIndex, found
    {
      var chunk, next, m;
      chunk, next, found, m := ScanRound(p, s, lastIndex);
      if found {
        Assoc(r, chunk, ReplaceFrom(p, s, next));
      }
      r := r + chunk;
      lastIndex := next;
    }
  }

  // ---------------------------------------------------------------------------
  // The second pass, position by position

  lemma {:induction false} Pass2FromPointwise(s: string, i: nat)
    requires i <= |s|
    ensures |ReplaceFrom(RBeforeWord, s, i)| == |s| - i
    ensures forall j :: i <= j < |s| ==> ReplaceFrom(RBeforeWord, s, i)[j - i] == Pass2At(s, j)
    decreases |s| - i
  {
    if i < |s| {
      Pass2FromPointwise(s, i + 1);
      var t := ReplaceFrom(RBeforeWord, s, i + 1);
      assert ReplaceFrom(RBeforeWord, s, i) == [Pass2At(s, i)] + t;
    }
  }

  /** The output of the second pass never has an `r` before a word character. */
  lemma Pass2Settles(s: string)
    ensures Settled(Pass2(s))
  {
    var u := Pass2(s);
    forall i | 0 <= i < |u| - 1
      ensures !(IsR(u[i]) && IsWordChar(u[i + 1]))
    {
      assert u[i] == Pass2At(s, i);
      assert u[i + 1] == Pass2At(s, i + 1);
    }
  }

  /** The second pass is determined character by character. */
  lemma Pass2ByPoints(s: string, t: string)
    requires |s| == |t|
    requires forall i :: 0 <= i < |s| ==> Pass2At(s, i) == t[i]
    ensures Pass2(s) == t
  {
    assert forall i :: 0 <= i < |s| ==> Pass2(s)[i] == t[i];
  }

  /** The second pass changes a string exactly when it is not settled. */
  lemma Pass2FixedIff(s: string)
    ensures Pass2(s) == s <==> Settled(s)
  {
    Pass2Settles(s);
    if Settled(s) {
      forall i | 0 <= i < |s|
        ensures Pass2(s)[i] == s[i]
      {
      }
    }
  }

  // ---------------------------------------------------------------------------
  // The first pass

  lemma NoDoubleRCons(c: char, x: string)
    requires NoDoubleR(x)
    requires IsR(c) ==> |x| == 0 || !IsR(x[0])
    ensures NoDoubleR([c] + x)
  {
    var y := [c] + x;
    forall i | 0 <= i < |y| - 1
      ensures !(IsR(y[i]) && IsR(y[i + 1]))
    {
      if i > 0 {
        assert y[i] == x[i - 1] && y[i + 1] == x[i];
      }
    }
  }

  lemma {:induction false} Pass1FromNoDoubleR(s: string, i: nat)
    requires i <= |s|
    ensures NoDoubleR(ReplaceFrom(DoubleR, s, i))
    decreases |s| - i
  {
    if i < |s| {
      var n := MatchAt(DoubleR, s, i);
      if n > 0 {
        Pass1FromNoDoubleR(s, i + n);
        NoDoubleRCons(Replacement, ReplaceFrom(DoubleR, s, i + n));
      } else {
        Pass1FromNoDoubleR(s, i + 1);
        NoDoubleRCons(s[i], ReplaceFrom(DoubleR, s, i + 1));
      }
    }
  }


  lemma {:induction false} Pass1FromShortens(s: string, i: nat, j: nat)
    requires i <= j && j + 1 < |s| && IsR(s[j]) && IsR(s[j + 1])
    ensures |ReplaceFrom(DoubleR, s, i)| < |s| - i
    decreases |s| - i
  {
    if MatchAt(DoubleR, s, i) == 0 {
      Pass1FromShortens(s, i + 1, j);
    } else {
      ReplaceFromLength(DoubleR, s, i + 2);
    }
  }

  /** The first pass shortens every string that contains an `rr`. */
  lemma Pass1Shortens(s: string)
    requires !NoDoubleR(s)
    ensures |Pass1(s)| < |s|
  {
    var j :| 0 <= j < |s| - 1 && IsR(s[j]) && IsR(s[j + 1]);
    Pass1FromShortens(s, 0, j);
  }

  /** The first pass changes a string exactly when it contains an `rr`. */
  lemma Pass1FixedIff(s: string)
    ensures Pass1(s) == s <==> NoDoubleR(s)
  {
    if NoDoubleR(s) {
      ReplaceFromSkip(DoubleR, s, 0, |s|);
      assert s[0..|s|] == s;
    } else {
      Pass1Shortens(s);
    }
  }

  lemma {:induction false} Pass1FromCountR(s: string, i: nat)
    requires i <= |s|
    ensures CountR(s[i..]) - CountR(ReplaceFrom(DoubleR, s, i)) == 2 * ((|s| - i) - |ReplaceFrom(DoubleR, s, i)|)
    decreases |s| - i
  {
    if i < |s| {
      SuffixCons(s, i);
      CountRCons(s[i], s[i + 1..]);
      if MatchAt(DoubleR, s, i) > 0 {
        Pass1FromCountR(s, i + 2);
        SuffixCons(s, i + 1);
        CountRCons(s[i + 1], s[i + 2..]);
        CountRCons(Replacement, ReplaceFrom(DoubleR, s, i + 2));
      } else {
        Pass1FromCountR(s, i + 1);
        CountRCons(s[i], ReplaceFrom(DoubleR, s, i + 1));
      }
    }
  }

  /** Each `rr` the first pass consumes removes two `r` characters and one
      character of length, so it creates no `r`. */
  lemma Pass1CountR(s: string)
    ensures CountR(s) - CountR(Pass1(s)) == 2 * (|s| - |Pass1(s)|)
  {
    Pass1FromCountR(s, 0);
    assert s[0..] == s;
  }

  // ---------------------------------------------------------------------------
  // Characters other than r, R and l

  lemma {:induction false} ReplaceFromKeepsOthers(p: Pattern, s: string, i: nat)
    requires i <= |s|
    ensures Untouched(ReplaceFrom(p, s, i)) == Untouched(s[i..])
    ensures CountR(ReplaceFrom(p, s, i)) <= CountR(s[i..])
    decreases |s| - i
  {
    if i < |s| {
      SuffixCons(s, i);
      UntouchedCons(s[i], s[i + 1..]);
      CountRCons(s[i], s[i + 1..]);
      var n := MatchAt(p, s, i);
      if n > 0 {
        ReplaceFromKeepsOthers(p, s, i + n);
        UntouchedCons(Replacement, ReplaceFrom(p, s, i + n));
        CountRCons(Replacement, ReplaceFrom(p, s, i + n));
        if n == 2 {
          SuffixCons(s, i + 1);
          UntouchedCons(s[i + 1], s[i + 2..]);
          CountRCons(s[i + 1], s[i + 2..]);
        }
      } else {
        ReplaceFromKeepsOthers(p, s, i + 1);
        UntouchedCons(s[i], ReplaceFrom(p, s, i + 1));
        CountRCons(s[i], ReplaceFrom(p, s, i + 1));
      }
    }
  }

  /** A replacement only ever swallows `r`/`R` characters and emits an `l`,
      so every other character survives, in order and in number. */
  lemma ReplaceAllKeepsOthers(p: Pattern, s: string)
    ensures Untouched(ReplaceAll(p, s)) == Untouched(s)
    ensures CountR(ReplaceAll(p, s)) <= CountR(s)
  {
    ReplaceFromKeepsOthers(p, s, 0);
    assert s[0..] == s;
  }

  // ---------------------------------------------------------------------------
  // The whole rewrite

  /** A settled string contains no `rr`, since `r` is itself a word character. */
  lemma SettledNoDoubleR(s: string)
    requires Settled(s)
    ensures NoDoubleR(s)
  {
    forall i | 0 <= i < |s| - 1
      ensures !(IsR(s[i]) && IsR(s[i + 1]))
    {
      assert IsR(s[i + 1]) ==> IsWordChar(s[i + 1]);
    }
  }

  /** The strings the rewrite leaves alone are exactly the settled ones. */
  lemma TransformFixedIff(s: string)
    ensures Transform(s) == s <==> Settled(s)
  {
    if Settled(s) {
      SettledNoDoubleR(s);
      Pass1FixedIff(s);
      Pass2FixedIff(s);
    }
  }

  /** Rewriting a rewritten string changes nothing. */
  lemma TransformIdempotent(s: string)
    ensures Transform(Transform(s)) == Transform(s)
  {
    TransformFixedIff(Transform(s));
  }

  /** A string without `r`/`R` is returned unchanged. */
  lemma TransformWithoutR(s: string)
    requires forall i :: 0 <= i < |s| ==> !IsR(s[i])
    ensures Transform(s) == s
  {
    TransformFixedIff(s);
  }

  /** The rewrite never lengthens a string, at most halves it, and keeps its
      length exactly when the string has no `rr`; the second pass keeps length. */
  lemma TransformLength(s: string)
    ensures |Transform(s)| == |Pass1(s)|
    ensures |Transform(s)| <= |s| <= 2 * |Transform(s)|
    ensures |Transform(s)| == |s| <==> NoDoubleR(s)
  {
    ReplaceFromLength(DoubleR, s, 0);
    Pass1FixedIff(s);
    if !NoDoubleR(s) {
      Pass1Shortens(s);
    }
  }

  /** Every character other than `r`, `R` and `l` keeps its relative order and
      multiplicity, and the rewrite introduces no `r`. */
  lemma TransformKeepsOthers(s: string)
    ensures Untouched(Transform(s)) == Untouched(s)
    ensures CountR(Transform(s)) <= CountR(s)
  {
    ReplaceAllKeepsOthers(DoubleR, s);
    ReplaceAllKeepsOthers(RBeforeWord, Pass1(s));
  }

  // ---------------------------------------------------------------------------
  // Word by word

  /** The replace of a suffix does not depend on what precedes it: a match
      only ever reads forward. */
  lemma {:induction false} ReplaceFromShift(p: Pattern, x: string, y: string, i: nat)
    requires i <= |y|
    ensures ReplaceFrom(p, x + y, |x| + i) == ReplaceFrom(p, y, i)
    decreases |y| - i
  {
    if i < |y| {
      var s := x + y;
      assert s[|x| + i] == y[i];
      if i + 1 < |y| {
        assert s[|x| + i + 1] == y[i + 1];
      }
      assert MatchAt(p, s, |x| + i) == MatchAt(p, y, i);
      var n := MatchAt(p, y, i);
      ReplaceFromShift(p, x, y, i + (if n > 0 then n else 1));
    }
  }

  /** A match before a non-word character does not read it. */
  lemma MatchAtBeforeBreak(p: Pattern, s: string, i: nat, m: nat)
    requires i < m < |s| && !IsWordChar(s[m])
    ensures MatchAt(p, s, i) == MatchAt(p, s[..m], i)
  {
    var t := s[..m];
    assert t[i] == s[i];
    if i + 1 < m {
      assert t[i + 1] == s[i + 1];
    }
  }

  /** No match reads a non-word character at position `m`, so the replace
      from `i` up to `m` works on the prefix alone. */
  lemma {:induction false} ReplaceFromSplits(p: Pattern, s: string, i: nat, m: nat)
    requires i <= m < |s| && !IsWordChar(s[m])
    ensures ReplaceFrom(p, s, i) == ReplaceFrom(p, s[..m], i) + ReplaceFrom(p, s, m)
    decreases m - i
  {
    var t := s[..m];
    if i < m {
      MatchAtBeforeBreak(p, s, i, m);
      var n := MatchAt(p, s, i);
      var k := if n > 0 then n else 1;
      var head := if n > 0 then [Replacement] else [s[i]];
      ReplaceFromSplits(p, s, i + k, m);
      Assoc(head, ReplaceFrom(p, t, i + k), ReplaceFrom(p, s, m));
    }
  }

  /** A pattern never matches across a character that is not a word
      character, so a replace works separately on either side of one. */
  lemma ReplaceAllSplits(p: Pattern, a: string, c: char, b: string)
    requires !IsWordChar(c)
    ensures ReplaceAll(p, a + [c] + b) == ReplaceAll(p, a) + [c] + ReplaceAll(p, b)
  {
    var s := a + [c] + b;
    ReplaceFromSplits(p, s, 0, |a|);
    assert s[..|a|] == a;
    assert MatchAt(p, s, |a|) == 0;
    ReplaceFromShift(p, a + [c], b, 0);
  }

  /** The rewrite works word by word: it never looks across a space or a
      punctuation mark. */
  lemma TransformSplits(a: string, c: char, b: string)
    requires !IsWordChar(c)
    ensures Transform(a + [c] + b) == Transform(a) + [c] + Transform(b)
  {
    ReplaceAllSplits(DoubleR, a, c, b);
    ReplaceAllSplits(RBeforeWord, Pass1(a), c, Pass1(b));
  }
}
