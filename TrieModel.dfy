/**
 * The node arena of `MapVectorTrie` as a value, and what it means.
 *
 * A trie is a sequence of nodes indexed by node id; node 0 is the root. Each
 * node records its parent, the character on the edge from the parent, the
 * dictionary indices of the patterns ending at it, and its outgoing edges.
 * `Str(nodes, v)` is the string spelled on the path from the root to `v`,
 * `Walk` follows edges from a start node, and `IndicesOf` gives the entries a
 * node must hold for a given table of terminal nodes.
 */
module TrieModel {
  import opened Wrappers
  import opened Words

  datatype Node = Node(parent: nat, prevChar: char, entries: seq<nat>, transitions: map<char, nat>)

  /** The root as the constructor creates it: its own parent, incoming character NUL. */
  const RootNode := Node(0, '\0', [], map[])

  /** Every node other than the root has a parent with a smaller id. */
  ghost predicate ParentsBelow(nodes: seq<Node>)
  {
    forall v :: 0 < v < |nodes| ==> nodes[v].parent < v
  }

  /** The string spelled from the root down to `v`. */
  ghost function Str(nodes: seq<Node>, v: nat): seq<char>
    requires ParentsBelow(nodes) && v < |nodes|
    decreases v
  {
    if v == 0 then [] else Str(nodes, nodes[v].parent) + [nodes[v].prevChar]
  }

  /** Number of edges between the root and `v`. */
  ghost function Depth(nodes: seq<Node>, v: nat): nat
    requires ParentsBelow(nodes) && v < |nodes|
  {
    |Str(nodes, v)|
  }

  /**
   * The arena is a tree rooted at 0: every non-root node hangs from its
   * parent's edge labelled with its incoming character, and every edge leads
   * to a node whose parent and incoming character are that edge's.
   */
  ghost predicate TreeShape(nodes: seq<Node>)
  {
    && |nodes| >= 1
    && nodes[0].parent == 0
    && ParentsBelow(nodes)
    && (forall v :: 0 < v < |nodes| ==> HangsFromParent(nodes, v))
    && (forall v, c :: 0 <= v < |nodes| && c in nodes[v].transitions ==> EdgeToChild(nodes, v, c))
  }

  /** Node `v` is the target of its parent's edge labelled with its incoming character. */
  ghost predicate HangsFromParent(nodes: seq<Node>, v: nat)
    requires 0 < v < |nodes| && nodes[v].parent < |nodes|
  {
    var p := nodes[nodes[v].parent];
    nodes[v].prevChar in p.transitions && p.transitions[nodes[v].prevChar] == v
  }

  /** The edge of `v` labelled `c` leads to a non-root node whose parent is `v` and incoming character `c`. */
  ghost predicate EdgeToChild(nodes: seq<Node>, v: nat, c: char)
    requires v < |nodes| && c in nodes[v].transitions
  {
    var w := nodes[v].transitions[c];
    0 < w < |nodes| && nodes[w].parent == v && nodes[w].prevChar == c
  }

  /** Follow the edges labelled by `s` from `start`; `None` at the first missing edge. */
  ghost function Walk(nodes: seq<Node>, start: nat, s: seq<char>): (r: Option<nat>)
    requires TreeShape(nodes) && start < |nodes|
    ensures r.Some? ==> r.value < |nodes|
    decreases |s|
  {
    if s == [] then Some(start)
    else
      match Walk(nodes, start, s[..|s| - 1])
      case None => None
      case Some(v) =>
        if s[|s| - 1] in nodes[v].transitions then Some(nodes[v].transitions[s[|s| - 1]]) else None
  }

  /** `x` is spelled by some node of the trie. */
  ghost predicate InTrie(nodes: seq<Node>, x: seq<char>)
    requires TreeShape(nodes)
  {
    Walk(nodes, 0, x).Some?
  }

  ghost function NodeOf(nodes: seq<Node>, x: seq<char>): (v: nat)
    requires TreeShape(nodes) && InTrie(nodes, x)
    ensures v < |nodes|
  {
    Walk(nodes, 0, x).value
  }

  /** Walking `s` from `start` reaches a node spelling `Str(start) + s`. */
  lemma {:induction false} WalkStr(nodes: seq<Node>, start: nat, s: seq<char>)
    requires TreeShape(nodes) && start < |nodes| && Walk(nodes, start, s).Some?
    ensures Str(nodes, Walk(nodes, start, s).value) == Str(nodes, start) + s
    decreases |s|
  {
    if s != [] {
      var init := s[..|s| - 1];
      WalkStr(nodes, start, init);
      assert s == init + [s[|s| - 1]];
    }
  }

  /** Every node is reached from the root by walking its own string. */
  lemma {:induction false} StrWalk(nodes: seq<Node>, v: nat)
    requires TreeShape(nodes) && v < |nodes|
    ensures Walk(nodes, 0, Str(nodes, v)) == Some(v)
    decreases v
  {
    if v != 0 {
      var p := nodes[v].parent;
      assert HangsFromParent(nodes, v);
      StrWalk(nodes, p);
      var s := Str(nodes, v);
      assert s[..|s| - 1] == Str(nodes, p);
    }
  }

  /** A string is in the trie exactly when some node spells it, and that node is `NodeOf`. */
  lemma InTrieIff(nodes: seq<Node>, v: nat, x: seq<char>)
    requires TreeShape(nodes) && v < |nodes|
    ensures Str(nodes, v) == x <==> InTrie(nodes, x) && NodeOf(nodes, x) == v
  {
    StrWalk(nodes, v);
    if InTrie(nodes, x) && NodeOf(nodes, x) == v {
      WalkStr(nodes, 0, x);
    }
  }

  /** No two nodes spell the same string. */
  lemma StrInjective(nodes: seq<Node>, v: nat, w: nat)
    requires TreeShape(nodes) && v < |nodes| && w < |nodes|
    requires Str(nodes, v) == Str(nodes, w)
    ensures v == w
  {
    StrWalk(nodes, v);
    StrWalk(nodes, w);
  }

  lemma NodeOfStr(nodes: seq<Node>, x: seq<char>)
    requires TreeShape(nodes) && InTrie(nodes, x)
    ensures Str(nodes, NodeOf(nodes, x)) == x
  {
    WalkStr(nodes, 0, x);
  }

  /** Only the root spells the empty string. */
  lemma EmptyStrIsRoot(nodes: seq<Node>, v: nat)
    requires ParentsBelow(nodes) && v < |nodes|
    ensures Str(nodes, v) == [] <==> v == 0
  {
  }

  /** A walk that succeeds on `x + y` succeeds on `x`. */
  lemma {:induction false} WalkPrefix(nodes: seq<Node>, start: nat, x: seq<char>, y: seq<char>)
    requires TreeShape(nodes) && start < |nodes| && Walk(nodes, start, x + y).Some?
    ensures Walk(nodes, start, x).Some?
    decreases |y|
  {
    if y != [] {
      var y' := y[..|y| - 1];
      assert (x + y)[..|x + y| - 1] == x + y';
      assert Walk(nodes, start, x + y').Some?;
      WalkPrefix(nodes, start, x, y');
    } else {
      assert x + y == x;
    }
  }

  /** The trie is closed under prefixes. */
  lemma PrefixInTrie(nodes: seq<Node>, x: seq<char>, y: seq<char>)
    requires TreeShape(nodes) && InTrie(nodes, x + y)
    ensures InTrie(nodes, x)
  {
    WalkPrefix(nodes, 0, x, y);
  }

  /** Strings of two arenas agree on nodes whose ancestors carry the same parents and characters. */
  lemma {:induction false} StrPreserved(a: seq<Node>, b: seq<Node>, v: nat)
    requires ParentsBelow(a) && ParentsBelow(b) && v < |a| <= |b|
    requires forall w :: 0 <= w < |a| ==> a[w].parent == b[w].parent && a[w].prevChar == b[w].prevChar
    ensures Str(a, v) == Str(b, v)
    decreases v
  {
    if v != 0 {
      StrPreserved(a, b, a[v].parent);
    }
  }

  /** The arena after `AddNode(node, ch)`: a fresh leaf under `node`, reached by `ch`. */
  function AddedNode(nodes: seq<Node>, node: nat, ch: char): (r: seq<Node>)
    requires node < |nodes|
    ensures |r| == |nodes| + 1
    ensures forall v :: 0 <= v < |nodes| ==>
              r[v].parent == nodes[v].parent && r[v].prevChar == nodes[v].prevChar && r[v].entries == nodes[v].entries
    ensures r[|nodes|] == Node(node, ch, [], map[])
  {
    var n := nodes[node];
    nodes[node := n.(transitions := n.transitions[ch := |nodes|])] + [Node(node, ch, [], map[])]
  }

  /**
   * Adding a node where there is no edge yet keeps the tree shape, keeps
   * every old node's string, and the new node spells its parent's string
   * followed by `ch`.
   */
  lemma AddNodeKeepsShape(nodes: seq<Node>, node: nat, ch: char)
    requires TreeShape(nodes) && node < |nodes| && ch !in nodes[node].transitions
    ensures TreeShape(AddedNode(nodes, node, ch))
    ensures forall w {:trigger Str(AddedNode(nodes, node, ch), w)} :: 0 <= w < |nodes| ==> Str(AddedNode(nodes, node, ch), w) == Str(nodes, w)
    ensures Str(AddedNode(nodes, node, ch), |nodes|) == Str(nodes, node) + [ch]
  {
    AddedNodeParents(nodes, node, ch);
    AddedNodeLinks(nodes, node, ch);
    AddedNodeStrings(nodes, node, ch);
  }

  /** The new leaf's parent is an old node, so parents still come first. */
  lemma AddedNodeParents(nodes: seq<Node>, node: nat, ch: char)
    requires ParentsBelow(nodes) && node < |nodes|
    ensures ParentsBelow(AddedNode(nodes, node, ch)) && AddedNode(nodes, node, ch)[0].parent == nodes[0].parent
  {
    var r := AddedNode(nodes, node, ch);
    forall v | 0 < v < |r|
      ensures r[v].parent < v
    {
      if v < |nodes| {
        assert r[v].parent == nodes[v].parent;
      }
    }
  }

  /** Old nodes keep their strings; the new leaf spells its parent's string followed by `ch`. */
  lemma AddedNodeStrings(nodes: seq<Node>, node: nat, ch: char)
    requires ParentsBelow(nodes) && node < |nodes| && ParentsBelow(AddedNode(nodes, node, ch))
    ensures forall w {:trigger Str(AddedNode(nodes, node, ch), w)} :: 0 <= w < |nodes| ==> Str(AddedNode(nodes, node, ch), w) == Str(nodes, w)
    ensures Str(AddedNode(nodes, node, ch), |nodes|) == Str(nodes, node) + [ch]
  {
    var r := AddedNode(nodes, node, ch);
    forall w | 0 <= w < |nodes|
      ensures Str(r, w) == Str(nodes, w)
    {
      StrPreserved(nodes, r, w);
    }
    assert r[|nodes|].parent == node;
    assert Str(r, |nodes|) == Str(r, node) + [ch];
  }

  lemma AddedNodeLinks(nodes: seq<Node>, node: nat, ch: char)
    requires TreeShape(nodes) && node < |nodes| && ch !in nodes[node].transitions
    ensures forall v :: 0 < v < |AddedNode(nodes, node, ch)| ==> HangsFromParent(AddedNode(nodes, node, ch), v)
    ensures forall v, c :: 0 <= v < |AddedNode(nodes, node, ch)| && c in AddedNode(nodes, node, ch)[v].transitions ==>
              EdgeToChild(AddedNode(nodes, node, ch), v, c)
  {
    var r := AddedNode(nodes, node, ch);
    assert forall w :: 0 <= w < |nodes| && w != node ==> r[w] == nodes[w];
    assert r[node].transitions == nodes[node].transitions[ch := |nodes|];
    forall v | 0 < v < |r|
      ensures HangsFromParent(r, v)
    {
      if v < |nodes| {
        assert HangsFromParent(nodes, v);
        if nodes[v].parent == node {
          assert EdgeToChild(nodes, node, nodes[v].prevChar);
        }
      }
    }
    forall v, c | 0 <= v < |r| && c in r[v].transitions
      ensures EdgeToChild(r, v, c)
    {
      if v != node || c != ch {
        assert EdgeToChild(nodes, v, c);
      }
    }
  }

  /** The dictionary indices `i` with `terminals[i] == v`, in increasing order. */
  function IndicesOf(terminals: seq<nat>, v: nat): (r: seq<nat>)
    decreases |terminals|
  {
    if terminals == [] then []
    else
      var n := |terminals| - 1;
      IndicesOf(terminals[..n], v) + (if terminals[n] == v then [n] else [])
  }

  /** `IndicesOf` lists exactly the indices whose terminal node is `v`, each once, ascending. */
  lemma {:induction false} IndicesOfSpec(terminals: seq<nat>, v: nat)
    ensures forall i :: i in IndicesOf(terminals, v) <==> 0 <= i < |terminals| && terminals[i] == v
    ensures forall k, l :: 0 <= k < l < |IndicesOf(terminals, v)| ==>
              IndicesOf(terminals, v)[k] < IndicesOf(terminals, v)[l]
    decreases |terminals|
  {
    if terminals != [] {
      var n := |terminals| - 1;
      IndicesOfSpec(terminals[..n], v);
      var before := IndicesOf(terminals[..n], v);
      forall k | 0 <= k < |before|
        ensures before[k] < n
      {
        assert before[k] in before;
      }
    }
  }

  /** No terminal refers to `v`, so `v` has no entries. */
  lemma {:induction false} NoIndicesAt(terminals: seq<nat>, v: nat)
    requires forall i :: 0 <= i < |terminals| ==> terminals[i] != v
    ensures IndicesOf(terminals, v) == []
    decreases |terminals|
  {
    if terminals != [] {
      NoIndicesAt(terminals[..|terminals| - 1], v);
    }
  }

  /**
   * The dictionary part of the trie: pattern `i` ends at `terminals[i]`,
   * which spells it, and every node's entries are exactly the indices of the
   * patterns ending there, ascending.
   */
  ghost predicate Stores(nodes: seq<Node>, terminals: seq<nat>, patterns: seq<seq<char>>)
  {
    && TreeShape(nodes)
    && |terminals| == |patterns|
    && (forall i :: 0 <= i < |terminals| ==> TerminalAt(nodes, terminals, patterns, i))
    && (forall v :: 0 <= v < |nodes| ==> nodes[v].entries == IndicesOf(terminals, v))
  }

  ghost predicate TerminalAt(nodes: seq<Node>, terminals: seq<nat>, patterns: seq<seq<char>>, i: nat)
    requires ParentsBelow(nodes) && i < |terminals| == |patterns|
  {
    terminals[i] < |nodes| && Str(nodes, terminals[i]) == patterns[i]
  }

  /** Adding a node where there is no edge keeps the dictionary. */
  lemma AddNodeKeepsDictionary(nodes: seq<Node>, terminals: seq<nat>, patterns: seq<seq<char>>, node: nat, ch: char)
    requires Stores(nodes, terminals, patterns) && node < |nodes| && ch !in nodes[node].transitions
    ensures Stores(AddedNode(nodes, node, ch), terminals, patterns)
    ensures forall w {:trigger Str(AddedNode(nodes, node, ch), w)} :: 0 <= w < |nodes| ==> Str(AddedNode(nodes, node, ch), w) == Str(nodes, w)
    ensures Str(AddedNode(nodes, node, ch), |nodes|) == Str(nodes, node) + [ch]
  {
    var r := AddedNode(nodes, node, ch);
    AddNodeKeepsShape(nodes, node, ch);
    forall i | 0 <= i < |terminals|
      ensures terminals[i] < |nodes| && TerminalAt(r, terminals, patterns, i)
    {
      assert TerminalAt(nodes, terminals, patterns, i);
    }
    AddedNodeEntries(nodes, terminals, node, ch);
  }

  lemma AddedNodeEntries(nodes: seq<Node>, terminals: seq<nat>, node: nat, ch: char)
    requires node < |nodes|
    requires forall v :: 0 <= v < |nodes| ==> nodes[v].entries == IndicesOf(terminals, v)
    requires forall i :: 0 <= i < |terminals| ==> terminals[i] < |nodes|
    ensures forall v :: 0 <= v < |nodes| + 1 ==> AddedNode(nodes, node, ch)[v].entries == IndicesOf(terminals, v)
  {
    var r := AddedNode(nodes, node, ch);
    forall v | 0 <= v < |r|
      ensures r[v].entries == IndicesOf(terminals, v)
    {
      if v == |nodes| {
        NoIndicesAt(terminals, v);
      } else {
        assert r[v].entries == nodes[v].entries;
      }
    }
  }

  /** Recording pattern `s` at the node spelling it keeps the dictionary. */
  lemma AddEntryKeepsDictionary(nodes: seq<Node>, terminals: seq<nat>, patterns: seq<seq<char>>, node: nat, s: seq<char>)
    requires Stores(nodes, terminals, patterns) && node < |nodes| && Str(nodes, node) == s
    ensures var n := nodes[node];
      Stores(nodes[node := n.(entries := n.entries + [|terminals|])], terminals + [node], patterns + [s])
  {
    var n := nodes[node];
    var r := nodes[node := n.(entries := n.entries + [|terminals|])];
    var t := terminals + [node];
    var p := patterns + [s];
    assert forall w :: 0 <= w < |nodes| ==> r[w].parent == nodes[w].parent && r[w].prevChar == nodes[w].prevChar;
    assert TreeShape(r) by {
      assert forall v :: 0 < v < |r| ==> HangsFromParent(r, v) == HangsFromParent(nodes, v);
      assert forall v, c :: 0 <= v < |r| && c in r[v].transitions ==> EdgeToChild(r, v, c) == EdgeToChild(nodes, v, c);
    }
    forall w | 0 <= w < |nodes|
      ensures Str(r, w) == Str(nodes, w)
    {
      StrPreserved(nodes, r, w);
    }
    forall i | 0 <= i < |t|
      ensures TerminalAt(r, t, p, i)
    {
      if i < |terminals| {
        assert TerminalAt(nodes, terminals, patterns, i);
      }
    }
    assert t[..|terminals|] == terminals;
  }

  /** In a stored dictionary, a node's entries are exactly the indices of the patterns it spells, ascending. */
  lemma EntriesSpec(nodes: seq<Node>, terminals: seq<nat>, patterns: seq<seq<char>>, v: nat)
    requires Stores(nodes, terminals, patterns) && v < |nodes|
    ensures forall i :: i in nodes[v].entries <==> 0 <= i < |patterns| && patterns[i] == Str(nodes, v)
    ensures forall k, l :: 0 <= k < l < |nodes[v].entries| ==> nodes[v].entries[k] < nodes[v].entries[l]
  {
    IndicesOfSpec(terminals, v);
    forall i | 0 <= i < |patterns| && patterns[i] == Str(nodes, v)
      ensures terminals[i] == v
    {
      assert TerminalAt(nodes, terminals, patterns, i);
      StrInjective(nodes, terminals[i], v);
    }
    assert forall i :: 0 <= i < |patterns| && terminals[i] == v ==> TerminalAt(nodes, terminals, patterns, i);
  }

  /** Every stored pattern is spelled by a node of the trie that lists it among its entries. */
  lemma PatternNode(nodes: seq<Node>, terminals: seq<nat>, patterns: seq<seq<char>>, i: nat)
    requires Stores(nodes, terminals, patterns) && i < |patterns|
    ensures terminals[i] < |nodes| && Str(nodes, terminals[i]) == patterns[i] && i in nodes[terminals[i]].entries
  {
    assert TerminalAt(nodes, terminals, patterns, i);
    EntriesSpec(nodes, terminals, patterns, terminals[i]);
  }

  /** A sequence listing exactly the patterns a node spells is empty exactly when the node has no entries. */
  lemma EntriesAgree(nodes: seq<Node>, terminals: seq<nat>, patterns: seq<seq<char>>, v: nat, es: seq<nat>)
    requires Stores(nodes, terminals, patterns) && v < |nodes|
    requires forall i :: i in es <==> 0 <= i < |patterns| && patterns[i] == Str(nodes, v)
    ensures es == [] <==> nodes[v].entries == []
  {
    EntriesSpec(nodes, terminals, patterns, v);
    if nodes[v].entries != [] {
      assert nodes[v].entries[0] in nodes[v].entries;
    }
    if es != [] {
      assert es[0] in es;
    }
  }

  /** A node spelling `Str(node) + [ch]` is the target of `node`'s edge labelled `ch`. */
  lemma EdgeIsTransition(nodes: seq<Node>, node: nat, ch: char, c: nat)
    requires TreeShape(nodes) && node < |nodes| && c < |nodes|
    requires Str(nodes, c) == Str(nodes, node) + [ch]
    ensures 0 < c && nodes[c].parent == node && nodes[c].prevChar == ch
    ensures ch in nodes[node].transitions && nodes[node].transitions[ch] == c
  {
    assert c != 0;
    assert HangsFromParent(nodes, c);
    var sc := Str(nodes, c);
    assert sc == Str(nodes, nodes[c].parent) + [nodes[c].prevChar];
    assert sc[..|sc| - 1] == Str(nodes, nodes[c].parent) && sc[..|sc| - 1] == Str(nodes, node);
    StrInjective(nodes, nodes[c].parent, node);
  }

  /** The string of `node` extended by `c` is in the trie exactly when `node` has an edge labelled `c`. */
  lemma ExtensionInTrie(nodes: seq<Node>, node: nat, c: char)
    requires TreeShape(nodes) && node < |nodes|
    ensures InTrie(nodes, Str(nodes, node) + [c]) <==> c in nodes[node].transitions
  {
    var x := Str(nodes, node) + [c];
    assert x[..|x| - 1] == Str(nodes, node);
    StrWalk(nodes, node);
  }
}
