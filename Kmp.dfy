/**
 * Prefix function and Knuth–Morris–Pratt search.
 *
 * The specification is `MatchLen(p, t)`, the length of the longest prefix of
 * `p` that is a suffix of `t`. The prefix function of `s` at `k` is
 * `MatchLen(s, s[1..k+1])`, the longest proper border of `s[..k+1]`, and the
 * search keeps `MatchLen(pattern, text read so far)`.
 */
module Kmp {
  import opened Words

  /** The prefix of `p` of length `k` is a suffix of `t`. */
  ghost predicate Ends(p: seq<char>, t: seq<char>, k: nat)
  {
    k <= |p| && k <= |t| && IsSuffix(p[..k], t)
  }

  /** The length of the longest prefix of `p` that is a suffix of `t`; `MatchLenSpec` states it. */
  ghost function MatchLen(p: seq<char>, t: seq<char>): (r: nat)
    ensures r <= |p| && r <= |t|
  {
    MatchLenBelow(p, t, if |p| < |t| then |p| else |t|)
  }

  /** Tries the lengths from `n` down to 0. */
  ghost function MatchLenBelow(p: seq<char>, t: seq<char>, n: nat): (r: nat)
    requires n <= |p| && n <= |t|
    ensures r <= n
    decreases n
  {
    if n == 0 || Ends(p, t, n) then n else MatchLenBelow(p, t, n - 1)
  }

  /** The search down from `n` stops at the longest prefix of length at most `n` that ends `t`. */
  lemma {:induction false} MatchLenBelowSpec(p: seq<char>, t: seq<char>, n: nat)
    requires n <= |p| && n <= |t|
    ensures Ends(p, t, MatchLenBelow(p, t, n))
    ensures forall k: nat :: MatchLenBelow(p, t, n) < k <= n ==> !Ends(p, t, k)
    decreases n
  {
    if n == 0 {
      assert p[..0] == t[|t|..];
    } else if !Ends(p, t, n) {
      MatchLenBelowSpec(p, t, n - 1);
    }
  }

  /** `MatchLen(p, t)` is a prefix of `p` ending `t`, and no longer prefix of `p` ends `t`. */
  lemma MatchLenSpec(p: seq<char>, t: seq<char>)
    ensures Ends(p, t, MatchLen(p, t))
    ensures forall k: nat :: Ends(p, t, k) ==> k <= MatchLen(p, t)
  {
    MatchLenBelowSpec(p, t, if |p| < |t| then |p| else |t|);
  }

  /** `s[..b]` is a proper border of `s[..n]`: a proper prefix of it that is also a suffix of it. */
  ghost predicate IsBorder(s: seq<char>, n: nat, b: nat)
  {
    b < n <= |s| && s[..b] == s[n - b..n]
  }

  /** The prefix function of `s` at position `k`. */
  ghost function Pi(s: seq<char>, k: nat): nat
    requires k < |s|
  {
    MatchLen(s, s[1..k + 1])
  }

  /** `Pi(s, n - 1)` is the length of the longest proper border of `s[..n]`. */
  lemma PiIsLongestBorder(s: seq<char>, n: nat)
    requires 0 < n <= |s|
    ensures Pi(s, n - 1) < n
    ensures IsBorder(s, n, Pi(s, n - 1))
    ensures forall b: nat :: IsBorder(s, n, b) ==> b <= Pi(s, n - 1)
  {
    var t := s[1..n];
    var r := Pi(s, n - 1);
    MatchLenSpec(s, t);
    assert s[n - r..n] == t[|t| - r..];
    forall b: nat | IsBorder(s, n, b)
      ensures b <= r
    {
      assert s[n - b..n] == t[|t| - b..];
      assert Ends(s, t, b);
    }
  }

  /** Matching lengths agree whenever the two texts end in the same prefixes of `p`. */
  lemma MatchLenSame(p: seq<char>, t1: seq<char>, t2: seq<char>)
    requires forall k: nat :: Ends(p, t1, k) <==> Ends(p, t2, k)
    ensures MatchLen(p, t1) == MatchLen(p, t2)
  {
    var r1 := MatchLen(p, t1);
    var r2 := MatchLen(p, t2);
    MatchLenSpec(p, t1);
    MatchLenSpec(p, t2);
    assert Ends(p, t2, r1) && Ends(p, t1, r2);
  }

  /** Only the first `|t|` characters of the pattern matter for a text `t`. */
  lemma MatchLenLongerPattern(p: seq<char>, q: seq<char>, t: seq<char>)
    requires |t| <= |p|
    ensures MatchLen(p + q, t) == MatchLen(p, t)
  {
    forall k: nat
      ensures Ends(p + q, t, k) <==> Ends(p, t, k)
    {
      if k <= |t| {
        assert (p + q)[..k] == p[..k];
      }
    }
    var r1 := MatchLen(p + q, t);
    var r2 := MatchLen(p, t);
    MatchLenSpec(p + q, t);
    MatchLenSpec(p, t);
    assert Ends(p, t, r1) && Ends(p + q, t, r2);
  }

  /** A non-empty prefix ends `t + [c]` exactly when it ends in `c` and the rest of it ends `t`. */
  lemma SnocEnds(p: seq<char>, t: seq<char>, c: char, k: nat)
    requires 0 < k
    ensures Ends(p, t + [c], k) <==> k <= |p| && Ends(p, t, k - 1) && p[k - 1] == c
  {
    if k <= |p| {
      SuffixSnoc(p[..k], t, c);
      assert p[..k][..k - 1] == p[..k - 1];
    }
  }

  /**
   * Every prefix of `p` that ends `t` also ends the longest one, `p[..m]`,
   * so extending `t` by `c` can be decided on `p[..m]` alone.
   */
  lemma MatchLenStep(p: seq<char>, t: seq<char>, c: char)
    ensures MatchLen(p, t + [c]) == MatchLen(p, p[..MatchLen(p, t)] + [c])
  {
    var m := MatchLen(p, t);
    var y := p[..m];
    MatchLenSpec(p, t);
    forall j: nat | Ends(p, t, j)
      ensures Ends(p, y, j)
    {
      SuffixOfSuffix(p[..j], y, t);
      assert y[..j] == p[..j];
    }
    forall j: nat | Ends(p, y, j)
      ensures Ends(p, t, j)
    {
      SuffixTrans(p[..j], y, t);
    }
    forall k: nat
      ensures Ends(p, t + [c], k) <==> Ends(p, y + [c], k)
    {
      if k > 0 {
        SnocEnds(p, t, c, k);
        SnocEnds(p, y, c, k);
      }
    }
    MatchLenSame(p, t + [c], y + [c]);
  }

  /** The border chain found no extension: nothing but the empty prefix ends `t + [c]`. */
  lemma NoExtension(p: seq<char>, t: seq<char>, c: char)
    requires forall j: nat :: Ends(p, t, j) && j < |p| ==> p[j] != c
    ensures MatchLen(p, t + [c]) == 0
  {
    var r := MatchLen(p, t + [c]);
    MatchLenSpec(p, t + [c]);
    if r > 0 {
      SnocEnds(p, t, c, r);
    }
  }

  /** `p[..v]` ends `t` and extends by `c`, and no longer prefix ending `t` does: the result is `v + 1`. */
  lemma ExtendAt(p: seq<char>, t: seq<char>, c: char, v: nat)
    requires Ends(p, t, v) && v < |p| && p[v] == c
    requires forall j: nat :: v < j && Ends(p, t, j) && j < |p| ==> p[j] != c
    ensures MatchLen(p, t + [c]) == v + 1
  {
    SnocEnds(p, t, c, v + 1);
    var r := MatchLen(p, t + [c]);
    MatchLenSpec(p, t + [c]);
    if r > v + 1 {
      SnocEnds(p, t, c, r);
    }
  }

  /**
   * One link of the border chain: when `p[..v]` ends `t`, the next shorter
   * prefix of `p` ending `t` is the longest proper border of `p[..v]`.
   */
  lemma BorderChainStep(p: seq<char>, t: seq<char>, v: nat)
    requires 0 < v && Ends(p, t, v)
    ensures Pi(p, v - 1) < v && Ends(p, t, Pi(p, v - 1))
    ensures forall j: nat :: Pi(p, v - 1) < j < v ==> !Ends(p, t, j)
  {
    var u := p[1..v];
    var b := Pi(p, v - 1);
    MatchLenSpec(p, u);
    assert p[..v][1..] == u;
    TailSuffix(p[..b], p[..v]);
    SuffixTrans(p[..b], p[..v], t);
    forall j: nat | b < j < v
      ensures !Ends(p, t, j)
    {
      if Ends(p, t, j) {
        SuffixOfSuffix(p[..j], p[..v], t);
        SuffixOfTail(p[..j], p[..v]);
        assert Ends(p, u, j);
      }
    }
  }

  /**
   * The next prefix-function value, with the character compare made only
   * inside the pattern: from `current`, the matched length so far, follow
   * the border chain through `func` until `ch` extends a prefix, else 0.
   */
  method GetNextPrefixFunctionValue(str: seq<char>, func: seq<nat>, current: nat, ch: char) returns (r: nat)
    requires current <= |str|
    requires current <= |func| && forall m :: 0 <= m < current ==> func[m] == Pi(str, m)
    ensures r == MatchLen(str, str[..current] + [ch])
    ensures r <= current + 1
  {
    ghost var t := str[..current];
    var v: nat := current;
    while true
      invariant v <= current && Ends(str, t, v)
      invariant forall j: nat :: v < j && Ends(str, t, j) && j < |str| ==> str[j] != ch
      decreases v
    {
      if v < |str| && ch == str[v] {
        ExtendAt(str, t, ch, v);
        return v + 1;
      }
      if v == 0 {
        NoExtension(str, t, ch);
        return 0;
      }
      BorderChainStep(str, t, v);
      v := func[v - 1];
    }
  }

  /**
   * The step as the source writes it: it compares `ch` with `str[current]`
   * before anything else, so it needs `current < |str|`.
   */
  method GetNextPrefixFunctionValueAsWritten(str: seq<char>, func: seq<nat>, current: nat, ch: char) returns (r: nat)
    requires current < |str|
    requires current <= |func| && forall m :: 0 <= m < current ==> func[m] == Pi(str, m)
    ensures r == MatchLen(str, str[..current] + [ch])
    ensures r <= current + 1
  {
    ghost var t := str[..current];
    var v: nat := current;
    while true
      invariant v <= current && Ends(str, t, v)
      invariant forall j: nat :: v < j && Ends(str, t, j) && j < |str| ==> str[j] != ch
      decreases v
    {
      if ch == str[v] {
        ExtendAt(str, t, ch, v);
        return v + 1;
      }
      if v == 0 {
        NoExtension(str, t, ch);
        return 0;
      }
      BorderChainStep(str, t, v);
      v := func[v - 1];
    }
  }

  /** The prefix function of `s + [c]` at the new position follows from the one before it. */
  lemma PiStep(s: seq<char>, k: nat)
    requires 0 < k < |s|
    ensures Pi(s, k) == MatchLen(s, s[..Pi(s, k - 1)] + [s[k]])
  {
    assert s[1..k + 1] == s[1..k] + [s[k]];
    MatchLenStep(s, s[1..k], s[k]);
  }

  /** The prefix function of `s`: entry `k` is the longest proper border of `s[..k+1]`. */
  method PrefixFunction(s: seq<char>) returns (pi: seq<nat>)
    ensures |pi| == |s|
    ensures forall k :: 0 <= k < |s| ==> pi[k] == Pi(s, k)
    ensures |s| > 0 ==> pi[0] == 0
  {
    if |s| == 0 {
      return [];
    }
    assert Pi(s, 0) == 0 by {
      assert |s[1..1]| == 0;
    }
    pi := [0];
    for k := 1 to |s|
      invariant |pi| == k
      invariant forall m :: 0 <= m < k ==> pi[m] == Pi(s, m)
    {
      PiStep(s, k);
      var v := GetNextPrefixFunctionValueAsWritten(s, pi, pi[k - 1], s[k]);
      pi := pi + [v];
    }
  }

  /**
   * Knuth–Morris–Pratt search: the end index of every occurrence of
   * `pattern` in `text`, in increasing order. The running matched length
   * uses the step that stays inside the pattern.
   */
  method KnuthMorrisPratt(pattern: seq<char>, text: seq<char>) returns (occurrences: seq<nat>)
    ensures forall i: nat :: i in occurrences <==> i < |text| && IsSuffix(pattern, text[..i + 1])
    ensures forall k, l :: 0 <= k < l < |occurrences| ==> occurrences[k] < occurrences[l]
  {
    var prefixFunction := PrefixFunction(pattern);
    var accumulated := 0;
    occurrences := [];
    assert text[..0] == [];
    for i := 0 to |text|
      invariant accumulated == MatchLen(pattern, text[..i])
      invariant OccurrencesUpTo(pattern, text, i, occurrences)
    {
      SearchStep(pattern, text, i);
      accumulated := GetNextPrefixFunctionValue(pattern, prefixFunction, accumulated, text[i]);
      OccurrencesStep(pattern, text, i, occurrences, accumulated == |pattern|);
      if accumulated == |pattern| {
        occurrences := occurrences + [i];
      }
    }
  }

  /** `occurrences` lists, in increasing order, the end index of every occurrence of `pattern` in `text[..i]`. */
  ghost predicate OccurrencesUpTo(pattern: seq<char>, text: seq<char>, i: nat, occurrences: seq<nat>)
    requires i <= |text|
  {
    && (forall j: nat :: j in occurrences <==> j < i && IsSuffix(pattern, text[..j + 1]))
    && (forall k, l :: 0 <= k < l < |occurrences| ==> occurrences[k] < occurrences[l])
    && (forall k :: 0 <= k < |occurrences| ==> occurrences[k] < i)
  }

  /** Reading one more character appends its index exactly when the pattern ends there. */
  lemma OccurrencesStep(pattern: seq<char>, text: seq<char>, i: nat, occurrences: seq<nat>, found: bool)
    requires i < |text| && OccurrencesUpTo(pattern, text, i, occurrences)
    requires found <==> IsSuffix(pattern, text[..i + 1])
    ensures OccurrencesUpTo(pattern, text, i + 1, if found then occurrences + [i] else occurrences)
  {
  }

  /**
   * Reading `text[i]` moves the matched length along one step, and the
   * pattern occurs ending at `i` exactly when the whole pattern is matched.
   */
  lemma SearchStep(pattern: seq<char>, text: seq<char>, i: nat)
    requires i < |text|
    ensures MatchLen(pattern, text[..i + 1]) == MatchLen(pattern, pattern[..MatchLen(pattern, text[..i])] + [text[i]])
    ensures MatchLen(pattern, text[..i + 1]) == |pattern| <==> IsSuffix(pattern, text[..i + 1])
  {
    assert text[..i + 1] == text[..i] + [text[i]];
    MatchLenStep(pattern, text[..i], text[i]);
    assert pattern[..|pattern|] == pattern;
    assert Ends(pattern, text[..i + 1], |pattern|) <==> IsSuffix(pattern, text[..i + 1]);
  }

  /**
   * The source's search passes the matched length straight back to the
   * step: after a full match of "a" in "aa" that length is 1, the length of
   * the pattern, so the step as written would read one past the pattern.
   */
  lemma FullMatchReadsPastPattern()
    ensures MatchLen("a", "a") == |"a"|
    ensures !(MatchLen("a", "a") < |"a"|)
  {
    assert "a"[..1] == "a";
    assert Ends("a", "a", 1);
  }
}
