/**
 * Rebuilding a string from its Z-function.
 *
 * The string grows left to right. A Z-block `[i, i + z[i])` reaching past
 * the end is filled by copying from the start of the string; a block ending
 * exactly at the end with `z[i] == 0` calls for a fresh letter, the smallest
 * one that differs from the letter after every block ending there.
 */
module ZToString {
  import opened Wrappers
  import opened Letters

  /** Every Z-block after the first stays inside the array. */
  ghost predicate BlocksInside(z: seq<nat>)
  {
    forall i :: 1 <= i < |z| ==> i + z[i] <= |z|
  }

  ghost predicate AllLetters(s: seq<char>)
  {
    forall k :: 0 <= k < |s| ==> IsLetter(s[k])
  }

  /** Position `p` of `s` repeats the character `c` places back, inside the block of `c`. */
  ghost predicate CopiedInBlock(z: seq<nat>, s: seq<char>, c: nat, p: nat)
  {
    1 <= c <= p < |s| && c < |z| && p < c + z[c] && s[p] == s[p - c]
  }

  /** Position `p` of `s` is copied inside the block of some `c` from `i` on. */
  ghost predicate CopiedFrom(z: seq<nat>, s: seq<char>, i: nat, p: nat)
  {
    exists c :: i <= c && CopiedInBlock(z, s, c, p)
  }

  /**
   * Position `p` of `s` is accounted for: either copied inside a Z-block, or
   * a fresh letter at a Z-value of 0, which differs from the first letter.
   */
  ghost predicate Explained(z: seq<nat>, s: seq<char>, p: nat)
  {
    CopiedFrom(z, s, 1, p) || (0 < p < |s| && p < |z| && z[p] == 0 && s[p] != s[0])
  }

  /** What explains a position stays true when the string grows. */
  lemma ExplainedGrows(z: seq<nat>, s: seq<char>, t: seq<char>, p: nat)
    requires |s| <= |t| && t[..|s|] == s && Explained(z, s, p)
    ensures Explained(z, t, p)
  {
    if CopiedFrom(z, s, 1, p) {
      var c :| 1 <= c && CopiedInBlock(z, s, c, p);
      assert s[p] == t[p] && s[p - c] == t[p - c];
      assert CopiedInBlock(z, t, c, p);
    } else {
      assert s[p] == t[p] && s[0] == t[0];
    }
  }

  /** A fresh letter at a Z-value of 0, different from the first letter, explains the new position. */
  lemma FreshExplained(z: seq<nat>, gen: seq<char>, c: char)
    requires 0 < |gen| < |z| && z[|gen|] == 0 && c != gen[0]
    requires forall p :: 1 <= p < |gen| ==> Explained(z, gen, p)
    ensures forall p :: 1 <= p < |gen| + 1 ==> Explained(z, gen + [c], p)
  {
    forall p | 1 <= p < |gen| + 1
      ensures Explained(z, gen + [c], p)
    {
      if p < |gen| {
        ExplainedGrows(z, gen, gen + [c], p);
      }
    }
  }

  /** Positions copied inside blocks from `i >= 1` on are explained, and so stay the positions before them. */
  lemma CopiedExplained(z: seq<nat>, gen: seq<char>, out: seq<char>, i: nat)
    requires 1 <= i && |gen| <= |out| && out[..|gen|] == gen
    requires forall p :: 1 <= p < |gen| ==> Explained(z, gen, p)
    requires forall p :: |gen| <= p < |out| ==> CopiedFrom(z, out, i, p)
    ensures forall p :: 1 <= p < |out| ==> Explained(z, out, p)
  {
    forall p | 1 <= p < |out|
      ensures Explained(z, out, p)
    {
      if p < |gen| {
        ExplainedGrows(z, gen, out, p);
      } else {
        assert CopiedFrom(z, out, i, p);
        var c :| i <= c && CopiedInBlock(z, out, c, p);
        assert 1 <= c;
      }
    }
  }

  /**
   * The copying branch: extends `gen` up to the end of the block of `i`,
   * moving to any block starting on the way that reaches further, and
   * repeating at each new position the character as far back as the block
   * in force starts. Returns the block reached last, which ends where the
   * string now ends.
   */
  method CopyBlock(z: seq<nat>, gen: seq<char>, i: nat) returns (out: seq<char>, block: nat)
    requires BlocksInside(z) && 1 <= i < |z| && i <= |gen| < i + z[i] && AllLetters(gen)
    ensures i <= block < |out| && block < |z| && |out| == block + z[block]
    ensures |gen| < |out| <= |z| && out[..|gen|] == gen && AllLetters(out)
    ensures forall p :: |gen| <= p < |out| ==> CopiedFrom(z, out, i, p)
  {
    block := i;
    var pos := |gen|;
    out := gen;
    ghost var from: seq<nat> := [];
    while pos < block + z[block]
      invariant i <= block <= pos && block < |z| && pos <= block + z[block] <= |z|
      invariant 0 < z[block] && i + z[i] <= block + z[block]
      invariant pos == |out| && |gen| <= pos && out[..|gen|] == gen && AllLetters(out)
      invariant |from| == pos - |gen|
      invariant forall k :: 0 <= k < |from| ==> i <= from[k] && CopiedInBlock(z, out, from[k], |gen| + k)
      decreases |z| - pos
    {
      if pos + z[pos] > block + z[block] {
        block := pos;
      }
      out := out + [out[pos - block]];
      from := from + [block];
      pos := pos + 1;
    }
    forall p | |gen| <= p < |out|
      ensures CopiedFrom(z, out, i, p)
    {
      var k := p - |gen|;
      assert i <= from[k] && CopiedInBlock(z, out, from[k], p);
    }
  }

  /** Bans the letter following each stacked block, popping the stack from the top until it is empty. */
  method BanStack(z: seq<nat>, gen: seq<char>, stack: seq<nat>) returns (banned: set<char>)
    requires forall k :: 0 <= k < |stack| ==> stack[k] < |z| && z[stack[k]] < |gen|
    ensures banned == set k | 0 <= k < |stack| :: gen[z[stack[k]]]
  {
    banned := {};
    var rest := stack;
    while |rest| > 0
      invariant |rest| <= |stack| && rest == stack[..|rest|]
      invariant banned == set k | |rest| <= k < |stack| :: gen[z[stack[k]]]
    {
      var top := rest[|rest| - 1];
      assert top == stack[|rest| - 1];
      banned := banned + {gen[z[top]]};
      rest := rest[..|rest| - 1];
    }
  }

  /**
   * A block of length 0 ends at the end of the string: bans the letter after
   * every stacked block and picks the smallest letter left, which differs
   * from the first letter since the block of length 0 bans it.
   */
  method CloseZeroBlock(z: seq<nat>, gen: seq<char>, stack: seq<nat>) returns (letter: Option<char>)
    requires 0 < |gen| && 0 < |stack|
    requires forall k :: 0 <= k < |stack| ==> stack[k] < |z| && z[stack[k]] < |gen|
    requires z[stack[|stack| - 1]] == 0
    ensures letter == MinFree(set k | 0 <= k < |stack| :: gen[z[stack[k]]])
    ensures letter.Some? ==> IsLetter(letter.value) && letter.value != gen[0]
  {
    var banned := BanStack(z, gen, stack);
    assert gen[z[stack[|stack| - 1]]] == gen[0];
    letter := SmallestFreeLetter(banned);
    MinFreeSpec(banned);
  }

  /**
   * The state before position `i`: the string has reached at least `i`,
   * starts with 'a', every later position is explained, and every stacked
   * block ends where the string ends.
   */
  ghost predicate Building(z: seq<nat>, gen: seq<char>, stack: seq<nat>, i: nat)
  {
    && 1 <= i <= |gen| <= |z| && gen[0] == 'a' && AllLetters(gen)
    && (forall k :: 0 <= k < |stack| ==> 1 <= stack[k] < |z| && stack[k] + z[stack[k]] == |gen|)
    && (forall p :: 1 <= p < |gen| ==> Explained(z, gen, p))
  }

  /**
   * The string whose Z-function is `z`, left to right. The value `z[0]` is
   * never read. When every letter is banned at some position the source
   * appends nothing there; the model stops with that position as an error.
   */
  method ConvertZFuncToString(z: seq<nat>) returns (r: Result<seq<char>, nat>)
    requires BlocksInside(z)
    ensures |z| == 0 ==> r == Ok([])
    ensures r.Ok? ==> |r.value| == |z| && AllLetters(r.value)
    ensures r.Ok? && |z| > 0 ==> r.value[0] == 'a'
    ensures r.Ok? ==> forall p :: 1 <= p < |z| ==> Explained(z, r.value, p)
    ensures r.Err? ==> 1 <= r.error < |z|
  {
    if |z| == 0 {
      return Ok([]);
    }
    var gen: seq<char> := ['a'];
    var stack: seq<nat> := [];
    var i := 1;
    while i < |z|
      invariant Building(z, gen, stack, i)
      decreases |z| - i
    {
      if i + z[i] < |gen| {
        i := i + 1;
      } else if i + z[i] == |gen| {
        stack := stack + [i];
        if z[i] == 0 {
          var letter := CloseZeroBlock(z, gen, stack);
          if letter.None? {
            return Err(i);
          }
          FreshExplained(z, gen, letter.value);
          gen := gen + [letter.value];
          stack := [];
        }
        i := i + 1;
      } else {
        var block;
        ghost var before := gen;
        gen, block := CopyBlock(z, gen, i);
        CopiedExplained(z, before, gen, i);
        stack := [block];
        i := block + 1;
      }
    }
    return Ok(gen);
  }
}
