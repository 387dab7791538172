/**
 * What the links of the Aho-Corasick automaton mean, stated on the trie arena.
 *
 * `Longest(nodes, x)` is the node spelling the longest suffix of `x` that is
 * in the trie: the state the automaton is in after reading `x`. The suffix
 * link of a non-root node is that state for its string minus the first
 * character. A dictionary node is one with entries; the terminal link of a
 * non-root node is the dictionary node spelling its longest proper suffix
 * that is a pattern, or the node itself when there is none.
 */
module AhoCorasickModel {
  import opened Wrappers
  import opened Words
  import opened TrieModel

  /** The node spelling the longest suffix of `x` present in the trie. */
  ghost function Longest(nodes: seq<Node>, x: seq<char>): (v: nat)
    requires TreeShape(nodes)
    ensures v < |nodes|
    decreases |x|
  {
    if InTrie(nodes, x) then NodeOf(nodes, x) else Longest(nodes, x[1..])
  }

  /** Suffix link: the root points to itself, other nodes to the longest proper suffix in the trie. */
  ghost function SuffixLinkOf(nodes: seq<Node>, v: nat): (r: nat)
    requires TreeShape(nodes) && v < |nodes|
    ensures r < |nodes|
  {
    if v == 0 then 0 else Longest(nodes, Str(nodes, v)[1..])
  }

  /** A node where at least one pattern ends. */
  ghost predicate IsDictNode(nodes: seq<Node>, v: nat)
  {
    v < |nodes| && nodes[v].entries != []
  }

  /** The dictionary node spelling the longest suffix of `x`, if any. */
  ghost function DictSuffixOf(nodes: seq<Node>, x: seq<char>): (r: Option<nat>)
    requires TreeShape(nodes)
    ensures r.Some? ==> r.value < |nodes|
    decreases |x|
  {
    if InTrie(nodes, x) && IsDictNode(nodes, NodeOf(nodes, x)) then Some(NodeOf(nodes, x))
    else if x == [] then None
    else DictSuffixOf(nodes, x[1..])
  }

  /**
   * Terminal link: the root points to itself; another node points to the
   * dictionary node of its longest proper suffix that is a pattern, or to
   * itself when no proper suffix is one.
   */
  ghost function TerminalLinkOf(nodes: seq<Node>, v: nat): (r: nat)
    requires TreeShape(nodes) && v < |nodes|
    ensures r < |nodes|
  {
    if v == 0 then 0
    else match DictSuffixOf(nodes, Str(nodes, v)[1..])
      case Some(d) => d
      case None => v
  }

  /** A string spelled by a node is in the trie. */
  lemma StrInTrie(nodes: seq<Node>, v: nat)
    requires TreeShape(nodes) && v < |nodes|
    ensures InTrie(nodes, Str(nodes, v)) && NodeOf(nodes, Str(nodes, v)) == v
  {
    StrWalk(nodes, v);
  }

  /** `Longest(x)` spells a suffix of `x`, and no node spelling a suffix of `x` is deeper. */
  lemma {:induction false} LongestSpec(nodes: seq<Node>, x: seq<char>)
    requires TreeShape(nodes)
    ensures IsSuffix(Str(nodes, Longest(nodes, x)), x)
    ensures forall v :: 0 <= v < |nodes| && IsSuffix(Str(nodes, v), x) ==>
              |Str(nodes, v)| <= |Str(nodes, Longest(nodes, x))|
    decreases |x|
  {
    if InTrie(nodes, x) {
      NodeOfStr(nodes, x);
    } else {
      LongestSpec(nodes, x[1..]);
      TailSuffix(Str(nodes, Longest(nodes, x)), x);
      forall v | 0 <= v < |nodes| && IsSuffix(Str(nodes, v), x)
        ensures |Str(nodes, v)| <= |Str(nodes, Longest(nodes, x))|
      {
        if Str(nodes, v) == x {
          StrInTrie(nodes, v);
        }
        SuffixOfTail(Str(nodes, v), x);
      }
    }
  }

  /** A node spelling a suffix of `x` of maximal length is `Longest(x)`. */
  lemma LongestUnique(nodes: seq<Node>, x: seq<char>, v: nat)
    requires TreeShape(nodes) && v < |nodes| && IsSuffix(Str(nodes, v), x)
    requires forall w :: 0 <= w < |nodes| && IsSuffix(Str(nodes, w), x) ==> |Str(nodes, w)| <= |Str(nodes, v)|
    ensures v == Longest(nodes, x)
  {
    var l := Longest(nodes, x);
    LongestSpec(nodes, x);
    SuffixOfSuffix(Str(nodes, v), Str(nodes, l), x);
    StrInjective(nodes, v, l);
  }

  /** A node spells a suffix of `x` exactly when it spells a suffix of the string of `Longest(x)`. */
  lemma SuffixOfLongest(nodes: seq<Node>, x: seq<char>, v: nat)
    requires TreeShape(nodes) && v < |nodes|
    ensures IsSuffix(Str(nodes, v), x) <==> IsSuffix(Str(nodes, v), Str(nodes, Longest(nodes, x)))
  {
    LongestSpec(nodes, x);
    var y := Str(nodes, Longest(nodes, x));
    if IsSuffix(Str(nodes, v), x) {
      SuffixOfSuffix(Str(nodes, v), y, x);
    }
    if IsSuffix(Str(nodes, v), y) {
      SuffixTrans(Str(nodes, v), y, x);
    }
  }

  /**
   * The automaton's transition: the state after reading `x` then `c` depends
   * on `x` only through the state after `x`.
   */
  lemma StepLongest(nodes: seq<Node>, x: seq<char>, c: char)
    requires TreeShape(nodes)
    ensures Longest(nodes, x + [c]) == Longest(nodes, Str(nodes, Longest(nodes, x)) + [c])
  {
    var y := Str(nodes, Longest(nodes, x));
    var l := Longest(nodes, x + [c]);
    LongestSpec(nodes, x + [c]);
    forall v | 0 <= v < |nodes|
      ensures IsSuffix(Str(nodes, v), x + [c]) <==> IsSuffix(Str(nodes, v), y + [c])
    {
      SnocSuffixIff(nodes, x, c, v);
    }
    LongestUnique(nodes, y + [c], l);
  }

  /** A node spells a suffix of `x + [c]` exactly when it spells a suffix of `Longest(x)`'s string plus `c`. */
  lemma SnocSuffixIff(nodes: seq<Node>, x: seq<char>, c: char, v: nat)
    requires TreeShape(nodes) && v < |nodes|
    ensures IsSuffix(Str(nodes, v), x + [c]) <==> IsSuffix(Str(nodes, v), Str(nodes, Longest(nodes, x)) + [c])
  {
    var y := Str(nodes, Longest(nodes, x));
    var s := Str(nodes, v);
    if v != 0 {
      var p := nodes[v].parent;
      assert s[..|s| - 1] == Str(nodes, p);
      SuffixSnoc(s, x, c);
      SuffixSnoc(s, y, c);
      SuffixOfLongest(nodes, x, p);
    }
  }

  /** A string missing from the trie has the same longest trie suffix as its tail. */
  lemma LongestMiss(nodes: seq<Node>, x: seq<char>)
    requires TreeShape(nodes) && !InTrie(nodes, x)
    ensures x != [] && Longest(nodes, x) == Longest(nodes, x[1..])
  {
    assert Walk(nodes, 0, []) == Some(0);
  }

  /** The suffix link of a non-root node is shallower than the node. */
  lemma SuffixLinkShallower(nodes: seq<Node>, v: nat)
    requires TreeShape(nodes) && 0 < v < |nodes|
    ensures Depth(nodes, SuffixLinkOf(nodes, v)) < Depth(nodes, v)
  {
    assert HangsFromParent(nodes, v);
    LongestSpec(nodes, Str(nodes, v)[1..]);
  }

  /** The suffix link of a non-root node spells a proper suffix of the node's string, the longest one in the trie. */
  lemma SuffixLinkProperSuffix(nodes: seq<Node>, v: nat)
    requires TreeShape(nodes) && 0 < v < |nodes|
    ensures IsSuffix(Str(nodes, SuffixLinkOf(nodes, v)), Str(nodes, v))
    ensures |Str(nodes, SuffixLinkOf(nodes, v))| < |Str(nodes, v)|
    ensures forall w :: 0 <= w < |nodes| && IsSuffix(Str(nodes, w), Str(nodes, v)[1..]) ==>
              |Str(nodes, w)| <= |Str(nodes, SuffixLinkOf(nodes, v))|
  {
    var sv := Str(nodes, v);
    assert HangsFromParent(nodes, v);
    assert |sv| > 0;
    LongestSpec(nodes, sv[1..]);
    TailSuffix(Str(nodes, SuffixLinkOf(nodes, v)), sv);
  }

  /** `DictSuffixOf(x)` is a dictionary node spelling a suffix of `x`, the deepest one; `None` when there is none. */
  lemma {:induction false} DictSuffixSpec(nodes: seq<Node>, x: seq<char>)
    requires TreeShape(nodes)
    ensures match DictSuffixOf(nodes, x)
      case None =>
        forall v :: IsDictNode(nodes, v) ==> !IsSuffix(Str(nodes, v), x)
      case Some(d) =>
        && IsDictNode(nodes, d) && IsSuffix(Str(nodes, d), x)
        && forall v :: IsDictNode(nodes, v) && IsSuffix(Str(nodes, v), x) ==> |Str(nodes, v)| <= |Str(nodes, d)|
    decreases |x|
  {
    if InTrie(nodes, x) && IsDictNode(nodes, NodeOf(nodes, x)) {
      NodeOfStr(nodes, x);
    } else if x != [] {
      DictSuffixSpec(nodes, x[1..]);
      forall v | IsDictNode(nodes, v) && IsSuffix(Str(nodes, v), x)
        ensures IsSuffix(Str(nodes, v), x[1..])
      {
        if Str(nodes, v) == x {
          StrInTrie(nodes, v);
        }
        SuffixOfTail(Str(nodes, v), x);
      }
      if DictSuffixOf(nodes, x).Some? {
        TailSuffix(Str(nodes, DictSuffixOf(nodes, x).value), x);
      }
    } else {
      forall v | IsDictNode(nodes, v) && IsSuffix(Str(nodes, v), x)
        ensures false
      {
        StrInTrie(nodes, v);
      }
    }
  }

  /** Two strings with the same dictionary nodes among their suffixes have the same `DictSuffixOf`. */
  lemma DictSuffixSame(nodes: seq<Node>, x: seq<char>, y: seq<char>)
    requires TreeShape(nodes)
    requires forall v :: IsDictNode(nodes, v) ==> (IsSuffix(Str(nodes, v), x) <==> IsSuffix(Str(nodes, v), y))
    ensures DictSuffixOf(nodes, x) == DictSuffixOf(nodes, y)
  {
    DictSuffixSpec(nodes, x);
    DictSuffixSpec(nodes, y);
    var a := DictSuffixOf(nodes, x);
    var b := DictSuffixOf(nodes, y);
    if a.Some? && b.Some? {
      SuffixOfSuffix(Str(nodes, a.value), Str(nodes, b.value), x);
      SuffixOfSuffix(Str(nodes, b.value), Str(nodes, a.value), x);
      StrInjective(nodes, a.value, b.value);
    }
  }

  /** The deepest pattern suffix of `x` is that of the state reached after reading `x`. */
  lemma DictSuffixOfLongest(nodes: seq<Node>, x: seq<char>)
    requires TreeShape(nodes)
    ensures DictSuffixOf(nodes, x) == DictSuffixOf(nodes, Str(nodes, Longest(nodes, x)))
  {
    forall v | IsDictNode(nodes, v)
      ensures IsSuffix(Str(nodes, v), x) <==> IsSuffix(Str(nodes, v), Str(nodes, Longest(nodes, x)))
    {
      SuffixOfLongest(nodes, x, v);
    }
    DictSuffixSame(nodes, x, Str(nodes, Longest(nodes, x)));
  }

  /** The links `ComputeLinks` gives a child `c` of the root, reached by `ch`. */
  lemma RootChildLinks(nodes: seq<Node>, ch: char)
    requires TreeShape(nodes) && ch in nodes[0].transitions
    ensures var c := nodes[0].transitions[ch];
      && 0 < c < |nodes| && Depth(nodes, c) == 1
      && SuffixLinkOf(nodes, c) == 0
      && TerminalLinkOf(nodes, c) == if IsDictNode(nodes, 0) then 0 else c
  {
    var c := nodes[0].transitions[ch];
    assert EdgeToChild(nodes, 0, ch);
    assert Str(nodes, c) == [ch];
    assert Str(nodes, c)[1..] == [];
    StrInTrie(nodes, 0);
  }

  /**
   * The suffix link of a child `c` of a non-root `node`, reached by `ch`, is
   * the state the suffix link of `node` leads to on `ch`; both links are
   * shallower than `c`.
   */
  lemma ChildSuffixLink(nodes: seq<Node>, node: nat, ch: char)
    requires TreeShape(nodes) && 0 < node < |nodes| && ch in nodes[node].transitions
    ensures var c := nodes[node].transitions[ch];
      && 0 < c < |nodes| && Depth(nodes, c) == Depth(nodes, node) + 1
      && Depth(nodes, SuffixLinkOf(nodes, node)) < Depth(nodes, node)
      && SuffixLinkOf(nodes, c) == Longest(nodes, Str(nodes, SuffixLinkOf(nodes, node)) + [ch])
      && Depth(nodes, SuffixLinkOf(nodes, c)) <= Depth(nodes, node)
  {
    var c := nodes[node].transitions[ch];
    ChildStr(nodes, node, ch);
    SuffixLinkShallower(nodes, node);
    SuffixLinkShallower(nodes, c);
    ChildLinkStep(nodes, node, ch);
  }

  /** The child of `node` reached by `ch` spells the string of `node` followed by `ch`. */
  lemma ChildStr(nodes: seq<Node>, node: nat, ch: char)
    requires TreeShape(nodes) && node < |nodes| && ch in nodes[node].transitions
    ensures var c := nodes[node].transitions[ch];
      0 < c < |nodes| && Str(nodes, c) == Str(nodes, node) + [ch]
  {
    assert EdgeToChild(nodes, node, ch);
  }

  /** The suffix link of the child of a non-root `node` by `ch` is the step on `ch` from the suffix link of `node`. */
  lemma ChildLinkStep(nodes: seq<Node>, node: nat, ch: char)
    requires TreeShape(nodes) && 0 < node < |nodes| && ch in nodes[node].transitions
    ensures var c := nodes[node].transitions[ch];
      0 < c < |nodes| && SuffixLinkOf(nodes, c) == Longest(nodes, Str(nodes, SuffixLinkOf(nodes, node)) + [ch])
  {
    var c := nodes[node].transitions[ch];
    ChildStr(nodes, node, ch);
    var sn := Str(nodes, node);
    assert HangsFromParent(nodes, node);
    assert |sn| > 0;
    var x := sn[1..];
    assert SuffixLinkOf(nodes, node) == Longest(nodes, x);
    assert Str(nodes, c)[1..] == x + [ch];
    assert SuffixLinkOf(nodes, c) == Longest(nodes, x + [ch]);
    StepLongest(nodes, x, ch);
  }

  /**
   * The terminal link of a non-root `c` follows from its suffix link `s`:
   * `s` itself when patterns end there, otherwise the terminal link `ts` of
   * `s`, where a self-link of `s` stands for none and gives `c` itself.
   */
  lemma ChildTerminalLink(nodes: seq<Node>, c: nat, s: nat, ts: nat)
    requires TreeShape(nodes) && 0 < c < |nodes|
    requires s == SuffixLinkOf(nodes, c) && ts == TerminalLinkOf(nodes, s)
    ensures TerminalLinkOf(nodes, c) == if IsDictNode(nodes, s) then s else if ts == s then c else ts
  {
    var x := Str(nodes, c)[1..];
    DictSuffixOfLongest(nodes, x);
    StrInTrie(nodes, s);
    if s != 0 {
      DictSuffixSpec(nodes, Str(nodes, s)[1..]);
    }
  }

  /** Every pattern that is a suffix of `t` is no longer than the string of the state reached on `t`. */
  lemma PatternsWithinLongest(nodes: seq<Node>, terminals: seq<nat>, patterns: seq<seq<char>>, t: seq<char>)
    requires Stores(nodes, terminals, patterns)
    ensures forall i :: 0 <= i < |patterns| && IsSuffix(patterns[i], t) ==>
              |patterns[i]| <= |Str(nodes, Longest(nodes, t))|
  {
    LongestSpec(nodes, t);
    forall i | 0 <= i < |patterns| && IsSuffix(patterns[i], t)
      ensures |patterns[i]| <= |Str(nodes, Longest(nodes, t))|
    {
      PatternNode(nodes, terminals, patterns, i);
    }
  }

  /**
   * The end of the terminal-link chain: when `v`, spelling a suffix of `t`,
   * links to itself, no pattern shorter than `v`'s string is a suffix of `t`.
   */
  lemma TerminalSelf(nodes: seq<Node>, terminals: seq<nat>, patterns: seq<seq<char>>, t: seq<char>, v: nat)
    requires Stores(nodes, terminals, patterns) && v < |nodes| && IsSuffix(Str(nodes, v), t)
    requires TerminalLinkOf(nodes, v) == v
    ensures forall i :: 0 <= i < |patterns| && IsSuffix(patterns[i], t) ==> |patterns[i]| >= |Str(nodes, v)|
  {
    if v != 0 {
      var sv := Str(nodes, v);
      DictSuffixSpec(nodes, sv[1..]);
      if DictSuffixOf(nodes, sv[1..]).None? {
        forall i | 0 <= i < |patterns| && IsSuffix(patterns[i], t)
          ensures |patterns[i]| >= |sv|
        {
          if |patterns[i]| < |sv| {
            ShorterPatternNode(nodes, terminals, patterns, t, v, i);
          }
        }
      }
    }
  }

  /**
   * One step along the terminal links: when `v`, spelling a suffix of `t`,
   * links to another node `u`, then `u` spells a shorter suffix of `t` and no
   * pattern suffix of `t` has a length strictly between the two.
   */
  lemma TerminalNext(nodes: seq<Node>, terminals: seq<nat>, patterns: seq<seq<char>>, t: seq<char>, v: nat)
    requires Stores(nodes, terminals, patterns) && v < |nodes| && IsSuffix(Str(nodes, v), t)
    requires TerminalLinkOf(nodes, v) != v
    ensures IsSuffix(Str(nodes, TerminalLinkOf(nodes, v)), t)
    ensures |Str(nodes, TerminalLinkOf(nodes, v))| < |Str(nodes, v)|
    ensures forall i :: 0 <= i < |patterns| && IsSuffix(patterns[i], t) && |patterns[i]| < |Str(nodes, v)| ==>
              |patterns[i]| <= |Str(nodes, TerminalLinkOf(nodes, v))|
  {
    var d := TerminalLinkOf(nodes, v);
    TerminalLinkSuffix(nodes, v);
    SuffixTrans(Str(nodes, d), Str(nodes, v), t);
    forall i | 0 <= i < |patterns| && IsSuffix(patterns[i], t) && |patterns[i]| < |Str(nodes, v)|
      ensures |patterns[i]| <= |Str(nodes, d)|
    {
      ShorterPatternNode(nodes, terminals, patterns, t, v, i);
    }
  }

  /**
   * A terminal link other than a self-link leads to a dictionary node
   * spelling a proper suffix of the node's string, the deepest such one.
   */
  lemma TerminalLinkSuffix(nodes: seq<Node>, v: nat)
    requires TreeShape(nodes) && v < |nodes| && TerminalLinkOf(nodes, v) != v
    ensures v != 0 && IsDictNode(nodes, TerminalLinkOf(nodes, v))
    ensures IsSuffix(Str(nodes, TerminalLinkOf(nodes, v)), Str(nodes, v))
    ensures |Str(nodes, TerminalLinkOf(nodes, v))| < |Str(nodes, v)|
    ensures forall w :: IsDictNode(nodes, w) && IsSuffix(Str(nodes, w), Str(nodes, v)[1..]) ==>
              |Str(nodes, w)| <= |Str(nodes, TerminalLinkOf(nodes, v))|
  {
    var sv := Str(nodes, v);
    DictSuffixSpec(nodes, sv[1..]);
    var d := TerminalLinkOf(nodes, v);
    TailSuffix(Str(nodes, d), sv);
  }

  /** A pattern suffix of `t` shorter than the string of `v`, itself a suffix of `t`, ends at a dictionary node spelling a suffix of `v`'s string minus its first character. */
  lemma ShorterPatternNode(nodes: seq<Node>, terminals: seq<nat>, patterns: seq<seq<char>>, t: seq<char>, v: nat, i: nat)
    requires Stores(nodes, terminals, patterns) && 0 < v < |nodes| && IsSuffix(Str(nodes, v), t)
    requires i < |patterns| && IsSuffix(patterns[i], t) && |patterns[i]| < |Str(nodes, v)|
    ensures terminals[i] < |nodes| && Str(nodes, terminals[i]) == patterns[i]
    ensures IsDictNode(nodes, terminals[i]) && IsSuffix(Str(nodes, terminals[i]), Str(nodes, v)[1..])
  {
    PatternNode(nodes, terminals, patterns, i);
    SuffixOfSuffix(patterns[i], Str(nodes, v), t);
    SuffixOfTail(patterns[i], Str(nodes, v));
  }

  /**
   * A missing edge at `v`: from the root the automaton falls back to the
   * root; elsewhere it continues from the suffix link, which is shallower.
   */
  lemma MissFollowsLink(nodes: seq<Node>, v: nat, ch: char)
    requires TreeShape(nodes) && v < |nodes| && ch !in nodes[v].transitions
    ensures v == 0 ==> Longest(nodes, Str(nodes, v) + [ch]) == 0
    ensures v != 0 ==> Depth(nodes, SuffixLinkOf(nodes, v)) < Depth(nodes, v)
    ensures v != 0 ==> Longest(nodes, Str(nodes, v) + [ch]) == Longest(nodes, Str(nodes, SuffixLinkOf(nodes, v)) + [ch])
  {
    MissDropsFirst(nodes, v, ch);
    if v == 0 {
      assert Walk(nodes, 0, []) == Some(0);
    } else {
      SuffixLinkShallower(nodes, v);
      MissLinkStep(nodes, v, ch);
    }
  }

  /** Without an edge on `ch` at `v`, the string of `v` followed by `ch` has the same longest trie suffix as its tail. */
  lemma MissDropsFirst(nodes: seq<Node>, v: nat, ch: char)
    requires TreeShape(nodes) && v < |nodes| && ch !in nodes[v].transitions
    ensures Longest(nodes, Str(nodes, v) + [ch]) == Longest(nodes, (Str(nodes, v) + [ch])[1..])
    ensures v == 0 ==> (Str(nodes, v) + [ch])[1..] == []
  {
    var x := Str(nodes, v) + [ch];
    ExtensionInTrie(nodes, v, ch);
    LongestMiss(nodes, x);
  }

  /** For a non-root `v`, the tail of its string followed by `ch` leads where the suffix link of `v` leads on `ch`. */
  lemma MissLinkStep(nodes: seq<Node>, v: nat, ch: char)
    requires TreeShape(nodes) && 0 < v < |nodes|
    ensures Longest(nodes, (Str(nodes, v) + [ch])[1..])
      == Longest(nodes, Str(nodes, SuffixLinkOf(nodes, v)) + [ch])
  {
    var sv := Str(nodes, v);
    assert HangsFromParent(nodes, v);
    assert |sv| > 0;
    var x := sv[1..];
    assert (sv + [ch])[1..] == x + [ch];
    assert SuffixLinkOf(nodes, v) == Longest(nodes, x);
    StepLongest(nodes, x, ch);
  }
}
