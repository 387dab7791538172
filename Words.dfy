/** Suffix relation on sequences, shared by the trie, the automaton and the KMP search. */
module Words {

  /** `x` is a suffix of `y`. */
  predicate IsSuffix<T(==)>(x: seq<T>, y: seq<T>)
  {
    |x| <= |y| && y[|y| - |x|..] == x
  }

  /** Two suffixes of one sequence: the shorter is a suffix of the longer. */
  lemma SuffixOfSuffix<T>(x: seq<T>, y: seq<T>, z: seq<T>)
    requires IsSuffix(x, z) && IsSuffix(y, z) && |x| <= |y|
    ensures IsSuffix(x, y)
  {
    assert y[|y| - |x|..] == z[|z| - |x|..];
  }

  lemma SuffixTrans<T>(x: seq<T>, y: seq<T>, z: seq<T>)
    requires IsSuffix(x, y) && IsSuffix(y, z)
    ensures IsSuffix(x, z)
  {
    assert z[|z| - |x|..] == z[|z| - |y|..][|y| - |x|..];
  }

  /** Suffixes of `y + [c]`: the empty one, or a suffix of `y` followed by `c`. */
  lemma SuffixSnoc<T>(x: seq<T>, y: seq<T>, c: T)
    requires |x| > 0
    ensures IsSuffix(x, y + [c]) <==> x[|x| - 1] == c && IsSuffix(x[..|x| - 1], y)
  {
    var w := y + [c];
    if IsSuffix(x, w) {
      assert x[|x| - 1] == w[|w| - 1];
      assert y[|y| - (|x| - 1)..] == w[|w| - |x|..|w| - 1];
    }
    if x[|x| - 1] == c && IsSuffix(x[..|x| - 1], y) {
      assert w[|w| - |x|..] == y[|y| - (|x| - 1)..] + [c];
    }
  }

  /** Dropping the first element keeps every suffix except the whole sequence. */
  lemma SuffixOfTail<T>(x: seq<T>, y: seq<T>)
    requires |y| > 0 && IsSuffix(x, y) && |x| < |y|
    ensures IsSuffix(x, y[1..])
  {
    assert y[1..][|y| - 1 - |x|..] == y[|y| - |x|..];
  }

  lemma TailSuffix<T>(x: seq<T>, y: seq<T>)
    requires |y| > 0 && IsSuffix(x, y[1..])
    ensures IsSuffix(x, y)
  {
    assert y[1..][|y| - 1 - |x|..] == y[|y| - |x|..];
  }

  lemma SuffixRefl<T>(x: seq<T>)
    ensures IsSuffix(x, x)
  {
  }

  /** `y` is a suffix of `x + y`. */
  lemma SuffixOfConcat<T>(x: seq<T>, y: seq<T>)
    ensures IsSuffix(y, x + y)
  {
    assert (x + y)[|x|..] == y;
  }

  function Reverse<T>(s: seq<T>): (r: seq<T>)
    ensures |r| == |s|
  {
    if s == [] then [] else Reverse(s[1..]) + [s[0]]
  }

  lemma {:induction false} ReverseSnoc<T>(s: seq<T>, x: T)
    ensures Reverse(s + [x]) == [x] + Reverse(s)
  {
    if s != [] {
      assert (s + [x])[1..] == s[1..] + [x];
      ReverseSnoc(s[1..], x);
    } else {
      assert [x][1..] == [];
    }
  }
}
