/**
 * `MapVectorTrie`: a prefix tree stored as an arena of nodes indexed by id,
 * with per-node `map` transitions, mapping inserted character sequences to
 * dictionary indices 0, 1, 2, ... in insertion order.
 *
 * The ghost field `patterns` records the inserted sequences; `Valid()` ties
 * the arena, the table of terminal nodes and the two counters to it.
 */
module Trie {
  import opened Wrappers
  import opened Words
  import opened TrieModel

  class MapVectorTrie {
    var nodes: seq<Node>
    var terminalNodes: seq<nat>
    var dictionarySize: nat
    var treeSize: nat
    ghost var patterns: seq<seq<char>>

    ghost predicate Valid()
      reads this
    {
      && Stores(nodes, terminalNodes, patterns)
      && treeSize == |nodes|
      && dictionarySize == |terminalNodes|
    }

    constructor ()
      ensures Valid()
      ensures nodes == [RootNode] && terminalNodes == [] && patterns == []
      ensures dictionarySize == 0 && treeSize == 1
    {
      nodes := [RootNode];
      terminalNodes := [];
      dictionarySize := 0;
      treeSize := 1;
      patterns := [];
    }

    /** Creates a child of `node` reached by `ch` and returns its id; `treeSize` is the caller's to update. */
    method AddNode(node: nat, ch: char) returns (id: nat)
      requires node < |nodes|
      modifies this`nodes
      ensures nodes == AddedNode(old(nodes), node, ch)
      ensures id == old(|nodes|) && nodes[id] == Node(node, ch, [], map[])
      ensures nodes[node].transitions == old(nodes[node].transitions)[ch := id]
      ensures forall w :: 0 <= w < old(|nodes|) && w != node ==> nodes[w] == old(nodes[w])
    {
      var n := nodes[node];
      nodes := nodes[node := n.(transitions := n.transitions[ch := |nodes|])];
      nodes := nodes + [Node(node, ch, [], map[])];
      id := |nodes| - 1;
    }

    /**
     * Appends `index` to the entries of `node` and records `node` as the
     * terminal node of `index`, growing the table with root ids if needed.
     */
    method AddEntryToNode(node: nat, index: nat)
      requires node < |nodes|
      modifies this`nodes, this`terminalNodes
      ensures nodes == old(nodes)[node := old(nodes[node]).(entries := old(nodes[node].entries) + [index])]
      ensures |terminalNodes| == if index < old(|terminalNodes|) then old(|terminalNodes|) else index + 1
      ensures terminalNodes[index] == node
      ensures forall i :: 0 <= i < |terminalNodes| && i != index ==>
                terminalNodes[i] == if i < old(|terminalNodes|) then old(terminalNodes[i]) else 0
    {
      var n := nodes[node];
      nodes := nodes[node := n.(entries := n.entries + [index])];
      if index >= |terminalNodes| {
        terminalNodes := terminalNodes + seq(index + 1 - |terminalNodes|, _ => 0);
      }
      terminalNodes := terminalNodes[index := node];
    }

    function Root(): (r: nat)
      reads this
      requires Valid()
      ensures r < |nodes| && Str(nodes, r) == []
    {
      0
    }

    function TreeSize(): (r: nat)
      reads this
      requires Valid()
      ensures r == |nodes|
    {
      treeSize
    }

    function DictionarySize(): (r: nat)
      reads this
      requires Valid()
      ensures r == |patterns|
    {
      dictionarySize
    }

    /** The child of `node` along `ch`, or `node` itself when there is no such edge. */
    function GetNext(node: nat, ch: char): (r: nat)
      reads this
      requires Valid() && node < |nodes|
      ensures r < |nodes|
      ensures r == node <==> ch !in nodes[node].transitions
      ensures r != node ==> Str(nodes, r) == Str(nodes, node) + [ch]
    {
      if ch in nodes[node].transitions then
        assert EdgeToChild(nodes, node, ch);
        nodes[node].transitions[ch]
      else
        node
    }

    function GetParent(node: nat): (r: nat)
      reads this
      requires Valid() && node < |nodes|
      ensures r < |nodes|
      ensures node == 0 ==> r == 0
      ensures node != 0 ==> r < node && Str(nodes, node) == Str(nodes, r) + [nodes[node].prevChar]
    {
      nodes[node].parent
    }

    function GetIncomingChar(node: nat): (r: char)
      reads this
      requires Valid() && node < |nodes|
      ensures node != 0 ==> Str(nodes, node)[|Str(nodes, node)| - 1] == r
    {
      nodes[node].prevChar
    }

    /** The indices of the inserted patterns that spell exactly this node's string, ascending. */
    function GetDictionaryEntries(node: nat): (r: seq<nat>)
      reads this
      requires Valid() && node < |nodes|
      ensures forall i :: i in r <==> 0 <= i < |patterns| && patterns[i] == Str(nodes, node)
      ensures forall k, l :: 0 <= k < l < |r| ==> r[k] < r[l]
    {
      EntriesSpec(nodes, terminalNodes, patterns, node);
      nodes[node].entries
    }

    /**
     * The outgoing edges of `node`: one per child, labelled with the child's
     * incoming character, each leading to a node spelling `node`'s string
     * plus its label.
     */
    function GetOutcomingEdges(node: nat): (r: map<char, nat>)
      reads this
      requires Valid() && node < |nodes|
      ensures forall c :: c in r ==> r[c] < |nodes| && Str(nodes, r[c]) == Str(nodes, node) + [c]
      ensures forall w :: 0 < w < |nodes| && nodes[w].parent == node ==> nodes[w].prevChar in r && r[nodes[w].prevChar] == w
    {
      assert forall c :: c in nodes[node].transitions ==> EdgeToChild(nodes, node, c);
      forall w | 0 < w < |nodes| && nodes[w].parent == node
        ensures nodes[w].prevChar in nodes[node].transitions && nodes[node].transitions[nodes[w].prevChar] == w
      {
        assert HangsFromParent(nodes, w);
      }
      nodes[node].transitions
    }

    /**
     * Walks down from the root along `s`, creating the missing nodes, and
     * returns the node spelling `s`. Entries and the dictionary are untouched.
     */
    method AddPath(s: seq<char>) returns (current: nat)
      requires Valid()
      modifies this`nodes, this`treeSize
      ensures Valid()
      ensures current < |nodes| && Str(nodes, current) == s
      ensures old(|nodes|) <= |nodes|
      ensures forall v :: 0 <= v < old(|nodes|) ==>
                nodes[v].parent == old(nodes[v].parent) && nodes[v].prevChar == old(nodes[v].prevChar) &&
                nodes[v].entries == old(nodes[v].entries)
      ensures forall v :: old(|nodes|) <= v < |nodes| ==> nodes[v].entries == []
      ensures InTrie(old(nodes), s) ==> nodes == old(nodes)
      ensures NewNodesAlong(old(nodes), nodes, s)
    {
      ghost var n0 := nodes;
      current := Root();
      var k := 0;
      while k < |s|
        invariant k <= |s| && Walking(n0, s, k, current)
      {
        current := WalkStep(n0, s, k, current);
        k := k + 1;
      }
      assert s[..k] == s;
    }

    /**
     * The insertion walk from `n0` after `k` characters of `s`: `current`
     * spells `s[..k]`, the arena only grew, by nodes spelling prefixes of
     * `s[..k]` that `n0` lacked, and not at all when `s` was in `n0`.
     */
    ghost predicate Walking(n0: seq<Node>, s: seq<char>, k: nat, current: nat)
      reads this
    {
      && Valid() && TreeShape(n0) && k <= |s| && current < |nodes| && Str(nodes, current) == s[..k]
      && Extends(n0, nodes) && (InTrie(n0, s) ==> nodes == n0) && NewNodesAlong(n0, nodes, s[..k])
    }

    /** One character of the insertion walk. */
    method WalkStep(ghost n0: seq<Node>, s: seq<char>, k: nat, current: nat) returns (next: nat)
      requires k < |s| && Walking(n0, s, k, current)
      modifies this`nodes, this`treeSize
      ensures Walking(n0, s, k + 1, next)
    {
      var ch := s[k];
      if InTrie(n0, s) {
        InsertFindsEdge(nodes, s, k, current);
      }
      ghost var before := nodes;
      AlongGrow(n0, nodes, s, k);
      next := Descend(current, ch);
      if ch !in before[current].transitions {
        AlongAdded(n0, before, current, s, k);
      }
      ExtendsTrans(n0, before, nodes);
      assert s[..k + 1] == s[..k] + [ch];
    }

    /** One step of the insertion walk: follows the edge labelled `ch` from `node`, creating it when missing. */
    method Descend(node: nat, ch: char) returns (next: nat)
      requires Valid() && node < |nodes|
      modifies this`nodes, this`treeSize
      ensures Valid() && next < |nodes| && Str(nodes, next) == old(Str(nodes, node)) + [ch]
      ensures Extends(old(nodes), nodes)
      ensures ch in old(nodes[node].transitions) ==> nodes == old(nodes)
      ensures ch !in old(nodes[node].transitions) ==> nodes == AddedNode(old(nodes), node, ch) && next == old(|nodes|)
    {
      next := GetNext(node, ch);
      if next == node {
        AddNodeKeepsDictionary(nodes, terminalNodes, patterns, node, ch);
        ExtendsAdded(nodes, nodes, node, ch);
        next := AddNode(node, ch);
        treeSize := treeSize + 1;
      }
    }

    /**
     * Walks down from the root along `s`, creating the missing nodes, then
     * records the next dictionary index at the node reached and returns it.
     */
    method Insert(s: seq<char>) returns (r: nat)
      requires Valid()
      modifies this`nodes, this`terminalNodes, this`dictionarySize, this`treeSize, this`patterns
      ensures Valid()
      ensures patterns == old(patterns) + [s] && dictionarySize == old(dictionarySize) + 1
      ensures r < |nodes| && Str(nodes, r) == s
      ensures terminalNodes == old(terminalNodes) + [r]
      ensures nodes[r].entries == (if r < old(|nodes|) then old(nodes[r].entries) else []) + [old(dictionarySize)]
      ensures old(|nodes|) <= |nodes|
      ensures forall v :: 0 <= v < old(|nodes|) ==> Str(nodes, v) == old(Str(nodes, v))
      ensures InTrie(old(nodes), s) ==> r == NodeOf(old(nodes), s) && |nodes| == old(|nodes|)
      ensures NewNodesAlong(old(nodes), nodes, s)
    {
      r := AddPath(s);
      ghost var before := nodes;
      RecordPattern(r, s);
      InsertStrings(old(nodes), before, nodes);
      AlongKept(old(nodes), before, nodes, s);
      if InTrie(old(nodes), s) {
        InTrieIff(before, r, s);
      }
    }

    /** Records the next dictionary index at `node`, which spells `s`. */
    method RecordPattern(node: nat, s: seq<char>)
      requires Valid() && node < |nodes| && Str(nodes, node) == s
      modifies this`nodes, this`terminalNodes, this`dictionarySize, this`patterns
      ensures Valid()
      ensures patterns == old(patterns) + [s] && dictionarySize == old(dictionarySize) + 1
      ensures terminalNodes == old(terminalNodes) + [node]
      ensures nodes == old(nodes)[node := old(nodes[node]).(entries := old(nodes[node].entries) + [old(dictionarySize)])]
    {
      ghost var oldTerminals := terminalNodes;
      AddEntryKeepsDictionary(nodes, terminalNodes, patterns, node, s);
      AddEntryToNode(node, dictionarySize);
      assert terminalNodes == oldTerminals + [node];
      dictionarySize := dictionarySize + 1;
      patterns := patterns + [s];
    }

    /**
     * Follows `s` from `start`; fails closed, returning `start` itself at the
     * first missing edge.
     */
    method Traverse(s: seq<char>, start: nat) returns (r: nat)
      requires Valid() && start < |nodes|
      ensures r == match Walk(nodes, start, s) case Some(v) => v case None => start
      ensures Walk(nodes, start, s).Some? ==> Str(nodes, r) == Str(nodes, start) + s
    {
      var current: nat := start;
      var k := 0;
      while k < |s|
        invariant 0 <= k <= |s| && Walk(nodes, start, s[..k]) == Some(current)
      {
        var next := GetNext(current, s[k]);
        WalkOneMore(nodes, start, s, k, current);
        if next == current {
          WalkMissFromPrefix(nodes, start, s, k + 1);
          return start;
        }
        current := next;
        k := k + 1;
      }
      assert s[..k] == s;
      WalkStr(nodes, start, s);
      r := current;
    }

    /** `Traverse` from the root: the node spelling `s`, or the root if `s` leaves the trie. */
    method Find(s: seq<char>) returns (r: nat)
      requires Valid()
      ensures r == if InTrie(nodes, s) then NodeOf(nodes, s) else Root()
      ensures InTrie(nodes, s) ==> Str(nodes, r) == s
    {
      r := Traverse(s, Root());
    }

    /** Collects incoming characters up the parent chain, then reverses them. */
    method GetString(node: nat) returns (r: seq<char>)
      requires Valid() && node < |nodes|
      ensures r == Str(nodes, node)
    {
      var acc: seq<char> := [];
      var v: nat := node;
      while v != Root()
        invariant v < |nodes| && Str(nodes, node) == Str(nodes, v) + Reverse(acc)
        decreases v
      {
        var c := GetIncomingChar(v);
        ReverseSnoc(acc, c);
        acc := acc + [c];
        v := GetParent(v);
      }
      r := Reverse(acc);
    }

    /** The `index`-th inserted sequence, rebuilt from its terminal node. */
    method GetStringByIndex(index: nat) returns (r: seq<char>)
      requires Valid() && index < DictionarySize()
      ensures r == patterns[index]
    {
      assert TerminalAt(nodes, terminalNodes, patterns, index);
      r := GetString(terminalNodes[index]);
    }
  }

  /**
   * `after` keeps the parents, incoming characters and entries of the nodes
   * of `before` and appends nodes without entries.
   */
  ghost predicate Extends(before: seq<Node>, after: seq<Node>)
  {
    && |before| <= |after|
    && (forall v :: 0 <= v < |before| ==>
          after[v].parent == before[v].parent && after[v].prevChar == before[v].prevChar &&
          after[v].entries == before[v].entries)
    && (forall v :: |before| <= v < |after| ==> after[v].entries == [])
  }

  lemma ExtendsTrans(a: seq<Node>, b: seq<Node>, c: seq<Node>)
    requires Extends(a, b) && Extends(b, c)
    ensures Extends(a, c)
  {
  }

  /** Adding a leaf keeps extending. */
  lemma ExtendsAdded(before: seq<Node>, nodes: seq<Node>, node: nat, ch: char)
    requires Extends(before, nodes) && node < |nodes|
    ensures Extends(before, AddedNode(nodes, node, ch))
  {
  }

  /**
   * Every node of `after` beyond those of `before` spells a prefix of `s`
   * that `before` does not hold. As no two nodes spell the same string, the
   * insertion walk adds at most one node per such prefix and nothing else.
   */
  ghost predicate NewNodesAlong(before: seq<Node>, after: seq<Node>, s: seq<char>)
    requires TreeShape(before) && ParentsBelow(after)
  {
    forall v :: |before| <= v < |after| ==> Str(after, v) <= s && !InTrie(before, Str(after, v))
  }

  /** A prefix of `s[..k]` is a prefix of `s[..k + 1]`. */
  lemma AlongGrow(before: seq<Node>, after: seq<Node>, s: seq<char>, k: nat)
    requires TreeShape(before) && ParentsBelow(after) && k < |s| && NewNodesAlong(before, after, s[..k])
    ensures NewNodesAlong(before, after, s[..k + 1])
  {
    forall v | |before| <= v < |after|
      ensures Str(after, v) <= s[..k + 1]
    {
      assert Str(after, v) <= s[..k];
      assert s[..k] <= s[..k + 1];
    }
  }

  /**
   * The node the walk adds below `from` for `s[k]` spells `s[..k + 1]`,
   * which the original arena `n0` did not hold: the edge was missing.
   */
  lemma AlongAdded(n0: seq<Node>, nodes: seq<Node>, from: nat, s: seq<char>, k: nat)
    requires TreeShape(n0) && TreeShape(nodes) && Extends(n0, nodes)
    requires k < |s| && from < |nodes| && Str(nodes, from) == s[..k] && s[k] !in nodes[from].transitions
    requires NewNodesAlong(n0, nodes, s[..k + 1])
    ensures TreeShape(AddedNode(nodes, from, s[k]))
    ensures NewNodesAlong(n0, AddedNode(nodes, from, s[k]), s[..k + 1])
  {
    var ch := s[k];
    var after := AddedNode(nodes, from, ch);
    AddNodeKeepsShape(nodes, from, ch);
    assert s[..k + 1] == s[..k] + [ch];
    ExtensionInTrie(nodes, from, ch);
    if InTrie(n0, s[..k + 1]) {
      var w := NodeOf(n0, s[..k + 1]);
      NodeOfStr(n0, s[..k + 1]);
      StrPreserved(n0, nodes, w);
      InTrieIff(nodes, w, s[..k + 1]);
      assert false;
    }
    forall v | |n0| <= v < |after|
      ensures Str(after, v) <= s[..k + 1] && !InTrie(n0, Str(after, v))
    {
      if v < |nodes| {
        assert Str(after, v) == Str(nodes, v);
      }
    }
  }

  /** Changing only entries and transitions keeps the strings of the added nodes. */
  lemma AlongKept(n0: seq<Node>, b: seq<Node>, c: seq<Node>, s: seq<char>)
    requires TreeShape(n0) && TreeShape(b) && TreeShape(c) && |b| == |c| && NewNodesAlong(n0, b, s)
    requires forall v :: 0 <= v < |b| ==> b[v].parent == c[v].parent && b[v].prevChar == c[v].prevChar
    ensures NewNodesAlong(n0, c, s)
  {
    forall v | |n0| <= v < |c|
      ensures Str(c, v) <= s && !InTrie(n0, Str(c, v))
    {
      StrPreserved(b, c, v);
    }
  }

  /** If `s` was already in the trie, its next edge exists wherever the insertion walk stands. */
  lemma InsertFindsEdge(nodes: seq<Node>, s: seq<char>, k: nat, current: nat)
    requires TreeShape(nodes) && InTrie(nodes, s) && k < |s| && current < |nodes|
    requires Str(nodes, current) == s[..k]
    ensures s[k] in nodes[current].transitions
  {
    assert s == s[..k + 1] + s[k + 1..];
    PrefixInTrie(nodes, s[..k + 1], s[k + 1..]);
    var w := NodeOf(nodes, s[..k + 1]);
    NodeOfStr(nodes, s[..k + 1]);
    assert s[..k + 1] == s[..k] + [s[k]];
    assert w != 0;
    assert HangsFromParent(nodes, w);
    StrInjective(nodes, nodes[w].parent, current);
  }

  /** Changing only entries and transitions, and appending nodes, keeps the strings of the old nodes. */
  lemma InsertStrings(a: seq<Node>, b: seq<Node>, c: seq<Node>)
    requires TreeShape(a) && TreeShape(b) && TreeShape(c) && |a| <= |b| == |c|
    requires forall v :: 0 <= v < |a| ==> a[v].parent == b[v].parent && a[v].prevChar == b[v].prevChar
    requires forall v :: 0 <= v < |b| ==> b[v].parent == c[v].parent && b[v].prevChar == c[v].prevChar
    ensures forall v :: 0 <= v < |a| ==> Str(c, v) == Str(a, v)
    ensures forall v :: 0 <= v < |b| ==> Str(c, v) == Str(b, v)
  {
    forall v | 0 <= v < |b|
      ensures Str(c, v) == Str(b, v)
    {
      StrPreserved(b, c, v);
    }
    forall v | 0 <= v < |a|
      ensures Str(c, v) == Str(a, v)
    {
      StrPreserved(a, b, v);
    }
  }

  /** One more character of `s` takes the walk along the edge it labels, if there is one. */
  lemma WalkOneMore(nodes: seq<Node>, start: nat, s: seq<char>, k: nat, current: nat)
    requires TreeShape(nodes) && start < |nodes| && k < |s| && Walk(nodes, start, s[..k]) == Some(current)
    ensures current < |nodes|
    ensures Walk(nodes, start, s[..k + 1]) ==
              if s[k] in nodes[current].transitions then Some(nodes[current].transitions[s[k]]) else None
  {
    assert s[..k + 1][..k] == s[..k];
  }

  /** A walk that misses on a prefix misses on the whole sequence. */
  lemma WalkMissFromPrefix(nodes: seq<Node>, start: nat, s: seq<char>, j: nat)
    requires TreeShape(nodes) && start < |nodes| && j <= |s| && Walk(nodes, start, s[..j]).None?
    ensures Walk(nodes, start, s).None?
  {
    assert s == s[..j] + s[j..];
    if Walk(nodes, start, s).Some? {
      WalkPrefix(nodes, start, s[..j], s[j..]);
    }
  }
}
