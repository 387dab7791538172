/**
 * Rebuilding a string from its prefix function, one value at a time.
 *
 * A positive value `v` repeats the letter at position `v - 1`; a zero picks
 * the smallest letter that differs from every letter that could extend a
 * border of the string so far, the letters along the chain `prev`,
 * `pf[prev - 1]`, …, 0.
 */
module PrefixToString {
  import opened Wrappers
  import opened Words
  import opened Letters
  import opened Kmp

  /** Every value is at most its own index, so following values goes strictly down. */
  ghost predicate Decreasing(pf: seq<nat>)
  {
    forall k :: 0 <= k < |pf| ==> pf[k] <= k
  }

  /** The values recorded so far and the string generated so far fit together. */
  ghost predicate Shaped(pf: seq<nat>, gen: seq<char>)
  {
    Decreasing(pf) && |gen| <= |pf|
  }

  /** The letters at positions `v`, `pf[v - 1]`, `pf[pf[v - 1] - 1]`, …, 0 of `gen`. */
  ghost function ChainLetters(pf: seq<nat>, gen: seq<char>, v: nat): set<char>
    requires Decreasing(pf) && v < |gen| && v <= |pf|
    decreases v
  {
    {gen[v]} + (if v == 0 then {} else ChainLetters(pf, gen, pf[v - 1]))
  }

  /** One call reads only letters that exist: `gen[val - 1]` for a positive value, the chain from the last value for a zero. */
  ghost predicate CanAppend(pf: seq<nat>, gen: seq<char>, val: nat)
  {
    |pf| > 0 ==> if val > 0 then val <= |gen| else pf[|pf| - 1] < |gen|
  }

  /** The values after one call: the first call records 0 whatever it is given. */
  ghost function NextValues(pf: seq<nat>, val: nat): seq<nat>
  {
    if |pf| == 0 then [0] else pf + [val]
  }

  /** The letters one call appends: none when every letter is banned. */
  ghost function Appended(pf: seq<nat>, gen: seq<char>, val: nat): seq<char>
    requires Shaped(pf, gen) && CanAppend(pf, gen, val)
  {
    if |pf| == 0 then ['a']
    else if val > 0 then [gen[val - 1]]
    else match MinFree(ChainLetters(pf, gen, pf[|pf| - 1]))
      case Some(c) => [c]
      case None => []
  }

  /** One call keeps the values decreasing, grows them by one and the string by at most one letter. */
  lemma StepShaped(pf: seq<nat>, gen: seq<char>, val: nat)
    requires Shaped(pf, gen) && CanAppend(pf, gen, val)
    ensures |NextValues(pf, val)| == |pf| + 1
    ensures |Appended(pf, gen, val)| <= 1
    ensures Shaped(NextValues(pf, val), gen + Appended(pf, gen, val))
  {
  }

  /** Every call in `values` reads only letters that exist, each from the state the calls before it left. */
  ghost predicate Feasible(pf: seq<nat>, gen: seq<char>, values: seq<nat>)
    requires Shaped(pf, gen)
    decreases |values|
  {
    |values| == 0 ||
    (CanAppend(pf, gen, values[0]) &&
     (StepShaped(pf, gen, values[0]);
      Feasible(NextValues(pf, values[0]), gen + Appended(pf, gen, values[0]), values[1..])))
  }

  /** The string after calling the append once per value, in order. */
  ghost function RunAll(pf: seq<nat>, gen: seq<char>, values: seq<nat>): seq<char>
    requires Shaped(pf, gen) && Feasible(pf, gen, values)
    decreases |values|
  {
    if |values| == 0 then gen
    else
      StepShaped(pf, gen, values[0]);
      RunAll(NextValues(pf, values[0]), gen + Appended(pf, gen, values[0]), values[1..])
  }

  /** The values after calling the append once per value, in order. */
  ghost function RunAllValues(pf: seq<nat>, gen: seq<char>, values: seq<nat>): seq<nat>
    requires Shaped(pf, gen) && Feasible(pf, gen, values)
    decreases |values|
  {
    if |values| == 0 then pf
    else
      StepShaped(pf, gen, values[0]);
      RunAllValues(NextValues(pf, values[0]), gen + Appended(pf, gen, values[0]), values[1..])
  }

  class PrefixFuncToStringConverter {
    var prefixFunction: seq<nat>
    var generatedString: seq<char>

    /** The values are decreasing, the string is no longer than them, and it is made of letters. */
    ghost predicate Valid()
      reads this
    {
      && Shaped(prefixFunction, generatedString)
      && forall k :: 0 <= k < |generatedString| ==> IsLetter(generatedString[k])
    }

    constructor ()
      ensures Valid() && prefixFunction == [] && generatedString == []
    {
      prefixFunction := [];
      generatedString := [];
    }

    /** The string generated so far, every character a lowercase letter. */
    function GetStringView(): (r: seq<char>)
      reads this
      requires Valid()
      ensures r == generatedString
      ensures forall k :: 0 <= k < |r| ==> IsLetter(r[k])
    {
      generatedString
    }

    /** A copy of the string generated so far; nothing changes. */
    method GetString() returns (r: seq<char>)
      requires Valid()
      ensures r == generatedString
      ensures forall k :: 0 <= k < |r| ==> IsLetter(r[k])
    {
      r := GetStringView();
    }

    /**
     * Records one prefix-function value and appends the letter it calls for:
     * 'a' on the first call, the letter at `val - 1` for a positive value,
     * and for a zero the smallest letter not on the border chain of the
     * previous value (nothing when all 26 are on it).
     */
    method AppendPrefixFuncValue(val: nat)
      requires Valid() && CanAppend(prefixFunction, generatedString, val)
      modifies this
      ensures Valid()
      ensures prefixFunction == NextValues(old(prefixFunction), val)
      ensures generatedString == old(generatedString) + Appended(old(prefixFunction), old(generatedString), val)
    {
      if |prefixFunction| == 0 {
        prefixFunction := [0];
        generatedString := generatedString + ['a'];
        return;
      }
      ghost var pf := prefixFunction;
      var prevValue := prefixFunction[|prefixFunction| - 1];
      prefixFunction := prefixFunction + [val];
      if val > 0 {
        generatedString := generatedString + [generatedString[val - 1]];
        return;
      }

      var banned: set<char> := {};
      var v: nat := prevValue;
      while true
        invariant v <= prevValue
        invariant banned + ChainLetters(pf, generatedString, v) == ChainLetters(pf, generatedString, prevValue)
        decreases v
      {
        banned := banned + {generatedString[v]};
        if v == 0 {
          break;
        }
        v := prefixFunction[v - 1];
      }
      assert banned == ChainLetters(pf, generatedString, prevValue);
      var letter := SmallestFreeLetter(banned);
      MinFreeSpec(banned);
      if letter.Some? {
        generatedString := generatedString + [letter.value];
      } else {
        assert generatedString == generatedString + [];
      }
    }

    /** Appends the values one after another, as `AppendPrefixFuncValue` would one at a time. */
    method AppendPrefixFuncValues(values: seq<nat>)
      requires Valid() && Feasible(prefixFunction, generatedString, values)
      modifies this
      ensures Valid()
      ensures prefixFunction == RunAllValues(old(prefixFunction), old(generatedString), values)
      ensures generatedString == RunAll(old(prefixFunction), old(generatedString), values)
    {
      for k := 0 to |values|
        invariant Valid() && Feasible(prefixFunction, generatedString, values[k..])
        invariant RunAllValues(prefixFunction, generatedString, values[k..]) ==
                  RunAllValues(old(prefixFunction), old(generatedString), values)
        invariant RunAll(prefixFunction, generatedString, values[k..]) ==
                  RunAll(old(prefixFunction), old(generatedString), values)
      {
        assert values[k..][1..] == values[k + 1..];
        AppendPrefixFuncValue(values[k]);
      }
      assert values[|values|..] == [];
    }
  }

  /** `pf` is the prefix function of `gen`. */
  ghost predicate PrefixFunctionOf(pf: seq<nat>, gen: seq<char>)
  {
    |pf| == |gen| && forall k :: 0 <= k < |gen| ==> pf[k] == Pi(gen, k)
  }

  lemma PrefixFunctionDecreasing(pf: seq<nat>, gen: seq<char>)
    requires PrefixFunctionOf(pf, gen)
    ensures Decreasing(pf)
  {
    forall k | 0 <= k < |gen|
      ensures pf[k] <= k
    {
      assert |gen[1..k + 1]| == k;
    }
  }

  /**
   * The chain of values from `v` visits every border of `gen[..v]`: the
   * letter after each prefix of `gen` that ends `gen[..v]` is on it.
   */
  lemma {:induction false} ChainLettersCover(pf: seq<nat>, gen: seq<char>, v: nat)
    requires PrefixFunctionOf(pf, gen) && Decreasing(pf) && v < |gen|
    ensures forall j: nat :: Ends(gen, gen[..v], j) ==> gen[j] in ChainLetters(pf, gen, v)
    decreases v
  {
    if v > 0 {
      var b := pf[v - 1];
      assert gen[..v][..v] == gen[..v];
      BorderChainStep(gen, gen[..v], v);
      ChainLettersCover(pf, gen, b);
      forall j: nat | Ends(gen, gen[..v], j) && j < v
        ensures gen[j] in ChainLetters(pf, gen, b)
      {
        assert gen[..v][..b] == gen[..b];
        SuffixOfSuffix(gen[..j], gen[..b], gen[..v]);
        assert gen[..b][..j] == gen[..j];
        assert Ends(gen, gen[..b], j);
      }
    }
  }

  /** The prefix function of `gen + [c]` at its last position, decided on the chain from the last value of `gen`. */
  lemma PiOfAppended(gen: seq<char>, prev: nat, c: char)
    requires 0 < |gen| && prev == Pi(gen, |gen| - 1)
    ensures Pi(gen + [c], |gen|) == MatchLen(gen, gen[..prev] + [c])
  {
    var t := gen[1..|gen|];
    PiOfSnoc(gen, c);
    MatchLenStep(gen, t, c);
  }

  /** At the new position, the extended string's prefix function only sees `gen` as the pattern. */
  lemma PiOfSnoc(gen: seq<char>, c: char)
    requires 0 < |gen|
    ensures Pi(gen + [c], |gen|) == MatchLen(gen, gen[1..|gen|] + [c])
  {
    var n := |gen|;
    var t := gen[1..n] + [c];
    assert (gen + [c])[1..n + 1] == t;
    MatchLenLongerPattern(gen, [c], t);
  }

  /**
   * A zero value: when `pf` is the prefix function of `gen`, a letter off
   * the chain of the last value gives the extended string a prefix function
   * of 0 at the new position.
   */
  lemma ZeroValueKept(pf: seq<nat>, gen: seq<char>, c: char)
    requires PrefixFunctionOf(pf, gen) && Decreasing(pf) && 0 < |gen|
    requires c !in ChainLetters(pf, gen, pf[|gen| - 1])
    ensures Pi(gen + [c], |gen|) == 0
  {
    var prev := pf[|gen| - 1];
    ChainLettersCover(pf, gen, prev);
    NoExtension(gen, gen[..prev], c);
    PiOfAppended(gen, prev, c);
  }

  /** Each letter on the chain from `u` is the letter after some prefix of `gen` that ends `gen[..u]`. */
  lemma {:induction false} ChainLetterAt(pf: seq<nat>, gen: seq<char>, u: nat, c: char) returns (j: nat)
    requires PrefixFunctionOf(pf, gen) && Decreasing(pf) && u < |gen|
    requires c in ChainLetters(pf, gen, u)
    ensures j <= u && Ends(gen, gen[..u], j) && gen[j] == c
    decreases u
  {
    assert gen[..u][..u] == gen[..u];
    if c == gen[u] {
      j := u;
    } else {
      var b := pf[u - 1];
      BorderChainStep(gen, gen[..u], u);
      j := ChainLetterAt(pf, gen, b, c);
      SuffixTrans(gen[..j], gen[..b], gen[..u]);
    }
  }

  /**
   * The converse of `ZeroValueKept`: every letter on the chain of the last
   * value extends a border, so it breaks the zero at the new position.
   */
  lemma ChainLettersBreak(pf: seq<nat>, gen: seq<char>, c: char)
    requires PrefixFunctionOf(pf, gen) && Decreasing(pf) && 0 < |gen|
    requires c in ChainLetters(pf, gen, pf[|gen| - 1])
    ensures Pi(gen + [c], |gen|) > 0
  {
    var prev := pf[|gen| - 1];
    var j := ChainLetterAt(pf, gen, prev, c);
    SnocEnds(gen, gen[..prev], c, j + 1);
    MatchLenSpec(gen, gen[..prev] + [c]);
    PiOfAppended(gen, prev, c);
  }

  /**
   * For a zero, the letter picked is the smallest letter that keeps the
   * prefix function 0 at the new position: it does, and every smaller
   * letter does not. `None` means every letter breaks the zero.
   */
  lemma ZeroLetterMinimal(pf: seq<nat>, gen: seq<char>)
    requires PrefixFunctionOf(pf, gen) && Decreasing(pf) && 0 < |gen|
    ensures match MinFree(ChainLetters(pf, gen, pf[|gen| - 1]))
      case Some(c) => IsLetter(c) && Pi(gen + [c], |gen|) == 0 &&
                      forall d :: 'a' <= d < c ==> Pi(gen + [d], |gen|) > 0
      case None => forall d :: IsLetter(d) ==> Pi(gen + [d], |gen|) > 0
  {
    var banned := ChainLetters(pf, gen, pf[|gen| - 1]);
    MinFreeSpec(banned);
    forall d | d in banned
      ensures Pi(gen + [d], |gen|) > 0
    {
      ChainLettersBreak(pf, gen, d);
    }
    if MinFree(banned).Some? {
      ZeroValueKept(pf, gen, MinFree(banned).value);
    }
  }

  /**
   * A positive value: when `pf` is the prefix function of `gen`, `val - 1`
   * is a border length on the chain of the last value, and no longer border
   * on it is followed by the same letter, repeating the letter at `val - 1`
   * gives the extended string a prefix function of `val` at the new
   * position.
   */
  lemma PositiveValueKept(pf: seq<nat>, gen: seq<char>, val: nat)
    requires PrefixFunctionOf(pf, gen) && 0 < |gen| && 0 < val
    requires Ends(gen, gen[..pf[|gen| - 1]], val - 1)
    requires forall j: nat :: val - 1 < j && Ends(gen, gen[..pf[|gen| - 1]], j) && j < |gen| ==> gen[j] != gen[val - 1]
    ensures val - 1 < |gen| && Pi(gen + [gen[val - 1]], |gen|) == val
  {
    var prev := pf[|gen| - 1];
    MatchLenSpec(gen, gen[1..|gen|]);
    ExtendAt(gen, gen[..prev], gen[val - 1], val - 1);
    PiOfAppended(gen, prev, gen[val - 1]);
  }

  /** The first call always records 0 and appends 'a', whatever value it is given. */
  lemma FirstValue(val: nat)
    ensures NextValues([], val) == [0] && Appended([], [], val) == "a"
  {
  }
}
