/**
 * `AhoCorasickAutomaton`: a dictionary trie plus two link tables indexed by
 * node id. `ComputeLinks` fills both tables breadth first; `ProcessText`
 * runs the text through the automaton and reports every occurrence of every
 * pattern as a (position, pattern index) pair.
 */
module AhoCorasick {
  import opened Wrappers
  import opened Words
  import opened TrieModel
  import opened AhoCorasickModel
  import opened Trie

  /** One call of the action: pattern number `index` ends at text position `pos`. */
  datatype Report = Report(pos: nat, index: nat)

  class AhoCorasickAutomaton {
    const dictionary: MapVectorTrie
    const suffixLink: array<nat>
    const terminalLink: array<nat>

    /** The trie is well formed and each link table has one slot per node. */
    ghost predicate Shaped()
      reads this, dictionary
    {
      && dictionary.Valid()
      && suffixLink != terminalLink
      && suffixLink.Length == |dictionary.nodes|
      && terminalLink.Length == |dictionary.nodes|
    }

    /** Every node holds its suffix link and its terminal link. */
    ghost predicate Valid()
      reads this, dictionary, suffixLink, terminalLink
    {
      && Shaped()
      && forall w :: 0 <= w < |dictionary.nodes| ==>
           suffixLink[w] == SuffixLinkOf(dictionary.nodes, w) && terminalLink[w] == TerminalLinkOf(dictionary.nodes, w)
    }

    /** Nodes no deeper than `depth` hold their suffix links. */
    ghost predicate SuffixLinkedUpTo(depth: nat)
      reads this, dictionary, suffixLink
      requires Shaped()
    {
      forall w :: 0 <= w < |dictionary.nodes| && Depth(dictionary.nodes, w) <= depth ==>
        suffixLink[w] == SuffixLinkOf(dictionary.nodes, w)
    }

    /** Takes the trie and allocates one slot per node in each link table, then computes the links. */
    constructor (trie: MapVectorTrie)
      requires trie.Valid()
      ensures dictionary == trie && Valid()
      ensures fresh(suffixLink) && fresh(terminalLink)
    {
      dictionary := trie;
      suffixLink := new nat[trie.TreeSize()](_ => 0);
      terminalLink := new nat[trie.TreeSize()](_ => 0);
      new;
      ComputeLinks();
    }

    /** The trie the automaton was built from, still well formed. */
    function Dictionary(): (r: MapVectorTrie)
      reads this, dictionary, suffixLink, terminalLink
      requires Valid()
      ensures r == dictionary && r.Valid()
    {
      dictionary
    }

    /**
     * The transition on `ch` from `node`: follow suffix links until an edge
     * labelled `ch` exists, else fall back to the root. The result spells the
     * longest suffix of `node`'s string plus `ch` that is in the trie.
     */
    method GetNext(node: nat, ch: char) returns (r: nat)
      requires Shaped() && node < |dictionary.nodes|
      requires SuffixLinkedUpTo(Depth(dictionary.nodes, node))
      ensures r == Longest(dictionary.nodes, Str(dictionary.nodes, node) + [ch])
    {
      ghost var nodes := dictionary.nodes;
      var root := dictionary.Root();
      var v: nat := node;
      while true
        invariant v < |nodes| && Depth(nodes, v) <= Depth(nodes, node)
        invariant Longest(nodes, Str(nodes, v) + [ch]) == Longest(nodes, Str(nodes, node) + [ch])
        decreases Depth(nodes, v)
      {
        var next := dictionary.GetNext(v, ch);
        if next != v {
          StrInTrie(nodes, next);
          return next;
        }
        MissFollowsLink(nodes, v, ch);
        if v == root {
          break;
        }
        v := suffixLink[v];
      }
      return root;
    }

    /**
     * The links of a child `node` of the root: the suffix link is the root;
     * the terminal link is the root when patterns end there, else `node`
     * itself. `done` holds nodes already linked.
     */
    method LinkRootChild(node: nat, ghost done: set<nat>)
      requires Shaped() && 0 < node < |dictionary.nodes| && dictionary.nodes[node].parent == 0
      requires Linked(done)
      modifies suffixLink, terminalLink
      ensures Linked(done + {node})
      ensures forall w :: 0 <= w < |dictionary.nodes| && w != node ==>
                suffixLink[w] == old(suffixLink[w]) && terminalLink[w] == old(terminalLink[w])
    {
      ghost var nodes := dictionary.nodes;
      assert HangsFromParent(nodes, node);
      RootChildLinks(nodes, nodes[node].prevChar);
      var root := dictionary.Root();
      suffixLink[node] := root;
      var rootEntries := dictionary.GetDictionaryEntries(root);
      EntriesAgree(nodes, dictionary.terminalNodes, dictionary.patterns, root, rootEntries);
      if |rootEntries| == 0 {
        terminalLink[node] := node;
      } else {
        terminalLink[node] := root;
      }
      forall w | w in done + {node}
        ensures LinkedAt(w)
      {
        if w != node {
          assert old(LinkedAt(w));
        }
      }
    }

    /**
     * The first block of `ComputeLinks`: the root links to itself and every
     * child of the root is queued with its links set.
     */
    method LinkRootChildren() returns (queue: seq<nat>)
      requires Shaped()
      modifies suffixLink, terminalLink
      ensures forall v :: v in queue ==> 0 < v < |dictionary.nodes| && Depth(dictionary.nodes, v) == 1
      ensures forall i, j :: 0 <= i < j < |queue| ==> queue[i] != queue[j]
      ensures forall w :: 0 < w < |dictionary.nodes| ==> (w in queue <==> dictionary.nodes[w].parent == 0)
      ensures Linked({0} + Elems(queue))
    {
      ghost var nodes := dictionary.nodes;
      var root := dictionary.Root();
      suffixLink[root] := root;
      terminalLink[root] := root;
      assert LinkedAt(0);

      queue := [];
      var edges := dictionary.GetOutcomingEdges(root);
      var remaining := edges.Keys;
      ChildQueueStart(nodes, 0, [], edges);
      while remaining != {}
        invariant remaining <= edges.Keys
        invariant ChildQueue(nodes, 0, [], queue, remaining)
        invariant Linked({0} + Elems(queue))
        decreases remaining
      {
        var ch :| ch in remaining;
        var node := edges[ch];
        EdgeIsTransition(nodes, 0, ch, node);
        EnqueueChild(nodes, 0, [], queue, remaining, ch, node);
        LinkRootChild(node, {0} + Elems(queue));
        ElemsSnoc(queue, node);
        queue := queue + [node];
        remaining := remaining - {ch};
      }
      RootQueue(nodes, queue);
    }

    /** Node `w` holds its suffix link and its terminal link. */
    ghost predicate LinkedAt(w: nat)
      reads this, dictionary, suffixLink, terminalLink
      requires Shaped()
    {
      w < |dictionary.nodes| &&
      suffixLink[w] == SuffixLinkOf(dictionary.nodes, w) && terminalLink[w] == TerminalLinkOf(dictionary.nodes, w)
    }

    /** Every node in `ws` holds its links. */
    ghost predicate Linked(ws: set<nat>)
      reads this, dictionary, suffixLink, terminalLink
      requires Shaped()
    {
      forall w :: w in ws ==> LinkedAt(w)
    }

    /**
     * The body of the breadth-first loop for one edge `node --ch--> nextNode`:
     * the suffix link of `nextNode` is the transition on `ch` from the suffix
     * link of `node`, and its terminal link is derived from that node's.
     * `done` holds the nodes already linked, among them every node no deeper
     * than `node`.
     */
    method LinkChild(node: nat, ch: char, nextNode: nat, ghost done: set<nat>)
      requires Shaped() && 0 < node < |dictionary.nodes|
      requires ch in dictionary.nodes[node].transitions && dictionary.nodes[node].transitions[ch] == nextNode
      requires Linked(done)
      requires forall w :: 0 <= w < |dictionary.nodes| && Depth(dictionary.nodes, w) <= Depth(dictionary.nodes, node) ==> w in done
      modifies suffixLink, terminalLink
      ensures Linked(done + {nextNode})
      ensures forall w :: 0 <= w < |dictionary.nodes| && w != nextNode ==>
                suffixLink[w] == old(suffixLink[w]) && terminalLink[w] == old(terminalLink[w])
    {
      ghost var nodes := dictionary.nodes;
      ChildSuffixLink(nodes, node, ch);
      assert LinkedAt(node);
      ghost var s := SuffixLinkOf(nodes, node);
      forall w | 0 <= w < |nodes| && Depth(nodes, w) <= Depth(nodes, s)
        ensures suffixLink[w] == SuffixLinkOf(nodes, w)
      {
        assert LinkedAt(w);
      }
      var suffixNode := GetNext(suffixLink[node], ch);
      assert LinkedAt(suffixNode);
      ChildTerminalLink(nodes, nextNode, suffixNode, terminalLink[suffixNode]);
      suffixLink[nextNode] := suffixNode;
      var entries := dictionary.GetDictionaryEntries(suffixNode);
      EntriesAgree(nodes, dictionary.terminalNodes, dictionary.patterns, suffixNode, entries);
      if |entries| == 0 {
        if suffixNode == terminalLink[suffixNode] {
          terminalLink[nextNode] := nextNode;
        } else {
          terminalLink[nextNode] := terminalLink[suffixNode];
        }
      } else {
        terminalLink[nextNode] := suffixNode;
      }
      forall w | w in done + {nextNode}
        ensures LinkedAt(w)
      {
        if w != nextNode {
          assert old(LinkedAt(w));
        }
      }
    }

    /**
     * One round of the inner loop: `nextNode`, the child of `node` on `ch`,
     * joins the queue and receives its links.
     */
    method QueueAndLinkChild(node: nat, ch: char, nextNode: nat, ghost queue: seq<nat>, ghost added: seq<nat>,
                             ghost remaining: set<char>, ghost done: set<nat>)
      requires Shaped() && 0 < node < |dictionary.nodes| && ch in remaining
      requires ch in dictionary.nodes[node].transitions && dictionary.nodes[node].transitions[ch] == nextNode
      requires ChildQueue(dictionary.nodes, node, queue, added, remaining)
      requires Linked(done + Elems(added))
      requires forall w :: 0 <= w < |dictionary.nodes| && Depth(dictionary.nodes, w) <= Depth(dictionary.nodes, node) ==> w in done
      modifies suffixLink, terminalLink
      ensures ChildQueue(dictionary.nodes, node, queue, added + [nextNode], remaining - {ch})
      ensures Linked(done + Elems(added + [nextNode]))
    {
      assert EdgeToChild(dictionary.nodes, node, ch);
      EnqueueChild(dictionary.nodes, node, queue, added, remaining, ch, nextNode);
      LinkChild(node, ch, nextNode, done + Elems(added));
      ElemsSnoc(added, nextNode);
    }

    /**
     * The inner loop of the breadth-first pass: queues every child of `node`
     * after `queue` and sets its links, given that every node no deeper than
     * `node` is in `done` and already holds its links.
     */
    method LinkChildren(node: nat, queue: seq<nat>, ghost done: set<nat>) returns (newQueue: seq<nat>)
      requires Shaped() && 0 < node < |dictionary.nodes|
      requires Linked(done)
      requires forall w :: 0 <= w < |dictionary.nodes| && Depth(dictionary.nodes, w) <= Depth(dictionary.nodes, node) ==> w in done
      requires forall i, j :: 0 <= i < j < |queue| ==> queue[i] != queue[j]
      requires forall v :: v in queue ==> v < |dictionary.nodes| && dictionary.nodes[v].parent != node
      modifies suffixLink, terminalLink
      ensures |queue| <= |newQueue| && newQueue[..|queue|] == queue
      ensures forall v :: v in newQueue[|queue|..] <==> 0 < v < |dictionary.nodes| && dictionary.nodes[v].parent == node
      ensures forall i, j :: 0 <= i < j < |newQueue| ==> newQueue[i] != newQueue[j]
      ensures Linked(done + Elems(newQueue[|queue|..]))
    {
      ghost var nodes := dictionary.nodes;
      var edges := dictionary.GetOutcomingEdges(node);
      var remaining := edges.Keys;
      var added: seq<nat> := [];
      ChildQueueStart(nodes, node, queue, edges);
      while remaining != {}
        invariant remaining <= edges.Keys
        invariant ChildQueue(nodes, node, queue, added, remaining)
        invariant Linked(done + Elems(added))
        decreases remaining
      {
        var ch :| ch in remaining;
        var nextNode := edges[ch];
        EdgeIsTransition(nodes, node, ch, nextNode);
        QueueAndLinkChild(node, ch, nextNode, queue, added, remaining, done);
        added := added + [nextNode];
        remaining := remaining - {ch};
      }
      newQueue := queue + added;
      assert newQueue[|queue|..] == added;
      ChildQueueDone(nodes, node, queue, added);
    }

    /**
     * One round of the breadth-first loop: pops the front node, queues its
     * children and sets their links.
     */
    method ExpandFront(ghost processed: set<nat>, queue: seq<nat>) returns (newQueue: seq<nat>)
      requires Shaped() && BfsState(dictionary.nodes, processed, queue) && |queue| > 0
      requires Linked(processed + Elems(queue))
      modifies suffixLink, terminalLink
      ensures BfsState(dictionary.nodes, processed + {queue[0]}, newQueue)
      ensures Linked(processed + {queue[0]} + Elems(newQueue))
    {
      ghost var nodes := dictionary.nodes;
      var node := queue[0];
      ghost var done := processed + Elems(queue);
      forall w | 0 <= w < |nodes| && Depth(nodes, w) <= Depth(nodes, node)
        ensures w in done
      {
        ShallowDone(nodes, processed, queue, Depth(nodes, node), w);
      }
      BfsPop(nodes, processed, queue);
      newQueue := LinkChildren(node, queue[1..], done);
      BreadthFirstStep(nodes, processed, queue, newQueue);
      ElemsSplit(processed, queue, newQueue);
    }

    /**
     * Fills both link tables: the root and its children first, then the
     * remaining nodes in breadth-first order, so that every node shallower
     * than the one being expanded already holds its links.
     */
    method ComputeLinks()
      requires Shaped()
      modifies suffixLink, terminalLink
      ensures Valid()
    {
      var queue: seq<nat> := LinkRootChildren();
      BfsStart(dictionary.nodes, queue);
      LinkBreadthFirst(queue);
    }

    /**
     * The breadth-first loop of `ComputeLinks`, from the queue of the root's
     * children to the empty queue, after which every node holds its links.
     */
    method LinkBreadthFirst(start: seq<nat>)
      requires Shaped() && BfsState(dictionary.nodes, {0}, start)
      requires Linked({0} + Elems(start))
      modifies suffixLink, terminalLink
      ensures Valid()
    {
      ghost var nodes := dictionary.nodes;
      var queue := start;
      ghost var processed: set<nat> := {0};
      while |queue| > 0
        invariant BfsState(nodes, processed, queue)
        invariant Linked(processed + Elems(queue))
        decreases Below(|nodes|) - processed
      {
        ghost var node := queue[0];
        BfsPop(nodes, processed, queue);
        queue := ExpandFront(processed, queue);
        processed := processed + {node};
      }
      AllReached(nodes, processed, queue);
      forall w | 0 <= w < |nodes|
        ensures suffixLink[w] == SuffixLinkOf(nodes, w) && terminalLink[w] == TerminalLinkOf(nodes, w)
      {
        assert w in processed + Elems(queue);
        assert LinkedAt(w);
      }
    }

    /** One report for each pattern spelled exactly by `node`, in ascending index order. */
    method ReportNode(pos: nat, node: nat) returns (found: seq<Report>)
      requires Valid() && node < |dictionary.nodes|
      ensures forall r :: r in found <==>
                r.pos == pos && r.index < |dictionary.patterns| && dictionary.patterns[r.index] == Str(dictionary.nodes, node)
      ensures forall k, l :: 0 <= k < l < |found| ==> found[k].index < found[l].index
    {
      var entries := dictionary.GetDictionaryEntries(node);
      found := [];
      for k := 0 to |entries|
        invariant |found| == k
        invariant forall j :: 0 <= j < k ==> found[j] == Report(pos, entries[j])
      {
        found := found + [Report(pos, entries[k])];
      }
      forall r | r in found
        ensures r.pos == pos && r.index in entries
      {
        var j :| 0 <= j < |found| && found[j] == r;
      }
      forall i | i in entries
        ensures Report(pos, i) in found
      {
        var j :| 0 <= j < |entries| && entries[j] == i;
        assert found[j] == Report(pos, i);
      }
    }

    /**
     * The reports for one text position: starting from `node`, the state
     * reached on the text read so far (`t`), report the patterns of each
     * node along the terminal links until a node links to itself. Together
     * these are the patterns that are suffixes of `t`.
     */
    method ReportAt(pos: nat, node: nat, ghost t: seq<char>) returns (found: seq<Report>)
      requires Valid() && node == Longest(dictionary.nodes, t)
      ensures forall r :: r in found <==> r.pos == pos && Occurs(dictionary.patterns, t, r.index)
      ensures forall k, l :: 0 <= k < l < |found| ==> found[k] != found[l]
      ensures LongestFirst(dictionary.patterns, found)
    {
      ghost var nodes := dictionary.nodes;
      ghost var patterns := dictionary.patterns;
      ghost var terminals := dictionary.terminalNodes;
      ChainStart(nodes, terminals, patterns, t, pos);
      var next := node;
      found := [];
      while true
        invariant ChainState(nodes, patterns, t, pos, next, found)
        decreases |Str(nodes, next)|
      {
        var here := ReportNode(pos, next);
        if terminalLink[next] == next {
          ChainEnd(nodes, terminals, patterns, t, pos, next, found, here);
          found := found + here;
          break;
        }
        ChainStep(nodes, terminals, patterns, t, pos, next, found, here);
        found := found + here;
        next := terminalLink[next];
      }
    }

    /**
     * Runs `text` through the automaton and reports, position by position,
     * every pattern that ends at that position.
     */
    method ProcessText(text: seq<char>) returns (reports: seq<Report>)
      requires Valid()
      ensures forall r :: r in reports <==> r.pos < |text| && Occurs(dictionary.patterns, text[..r.pos + 1], r.index)
      ensures forall k, l :: 0 <= k < l < |reports| ==> reports[k].pos <= reports[l].pos
      ensures forall k, l :: 0 <= k < l < |reports| ==> reports[k] != reports[l]
      ensures forall k, l :: 0 <= k < l < |reports| && reports[k].pos == reports[l].pos ==>
                ReportedBefore(dictionary.patterns, reports[k], reports[l])
    {
      ghost var nodes := dictionary.nodes;
      var current := dictionary.Root();
      assert text[..0] == [];
      reports := [];
      for pos := 0 to |text|
        invariant current == Longest(nodes, text[..pos])
        invariant ReportsUpTo(dictionary.patterns, text, pos, reports)
      {
        StepLongest(nodes, text[..pos], text[pos]);
        assert text[..pos + 1] == text[..pos] + [text[pos]];
        current := GetNext(current, text[pos]);
        var found := ReportAt(pos, current, text[..pos + 1]);
        ReportsStep(dictionary.patterns, text, pos, reports, found);
        reports := reports + found;
      }
    }
  }

  /** Pattern `i` ends the text `t`. */
  ghost predicate Occurs(patterns: seq<seq<char>>, t: seq<char>, i: nat)
  {
    i < |patterns| && IsSuffix(patterns[i], t)
  }

  /**
   * The order of two reports at one position: the longer pattern first, and
   * equal patterns by ascending index.
   */
  ghost predicate ReportedBefore(patterns: seq<seq<char>>, a: Report, b: Report)
  {
    && a.index < |patterns| && b.index < |patterns|
    && (|patterns[a.index]| > |patterns[b.index]| || (|patterns[a.index]| == |patterns[b.index]| && a.index < b.index))
  }

  /** The reports of one position come longest first. */
  ghost predicate LongestFirst(patterns: seq<seq<char>>, found: seq<Report>)
  {
    forall k, l :: 0 <= k < l < |found| ==> ReportedBefore(patterns, found[k], found[l])
  }

  /**
   * Reports for patterns of length `len`, in ascending index order, may
   * follow reports for longer patterns.
   */
  lemma OrderJoin(patterns: seq<seq<char>>, found: seq<Report>, here: seq<Report>, len: nat)
    requires LongestFirst(patterns, found)
    requires forall r :: r in found ==> r.index < |patterns| && |patterns[r.index]| > len
    requires forall r :: r in here ==> r.index < |patterns| && |patterns[r.index]| == len
    requires forall k, l :: 0 <= k < l < |here| ==> here[k].index < here[l].index
    ensures LongestFirst(patterns, found + here)
  {
    var all := found + here;
    forall k, l | 0 <= k < l < |all|
      ensures ReportedBefore(patterns, all[k], all[l])
    {
      if l < |found| {
        assert all[k] == found[k] && all[l] == found[l];
      } else if k < |found| {
        assert all[k] in found && all[l] in here;
      } else {
        assert all[k] == here[k - |found|] && all[l] == here[l - |found|];
        assert all[k] in here && all[l] in here;
      }
    }
  }

  /**
   * One step along the terminal links: the reports so far cover the pattern
   * suffixes longer than `node`'s string, those of `node` cover the ones as
   * long as it.
   */
  lemma ReportsJoin(nodes: seq<Node>, patterns: seq<seq<char>>, t: seq<char>, pos: nat, node: nat,
                    found: seq<Report>, here: seq<Report>)
    requires TreeShape(nodes) && node < |nodes| && IsSuffix(Str(nodes, node), t)
    requires forall i: nat :: Occurs(patterns, t, i) ==> |patterns[i]| <= |Str(nodes, node)| || Report(pos, i) in found
    requires forall r :: r in found ==> r.pos == pos && Occurs(patterns, t, r.index) && |patterns[r.index]| > |Str(nodes, node)|
    requires forall k, l :: 0 <= k < l < |found| ==> found[k] != found[l]
    requires forall r :: r in here <==> r.pos == pos && r.index < |patterns| && patterns[r.index] == Str(nodes, node)
    requires forall k, l :: 0 <= k < l < |here| ==> here[k].index < here[l].index
    ensures forall i: nat :: Occurs(patterns, t, i) ==> |patterns[i]| < |Str(nodes, node)| || Report(pos, i) in found + here
    ensures forall r :: r in found + here ==> r.pos == pos && Occurs(patterns, t, r.index) && |patterns[r.index]| >= |Str(nodes, node)|
    ensures forall k, l :: 0 <= k < l < |found + here| ==> (found + here)[k] != (found + here)[l]
  {
    var sv := Str(nodes, node);
    forall i: nat | Occurs(patterns, t, i) && |patterns[i]| == |sv|
      ensures Report(pos, i) in here
    {
      assert patterns[i] == t[|t| - |sv|..] == sv;
    }
    forall r | r in here
      ensures Occurs(patterns, t, r.index)
    {
    }
    var all := found + here;
    forall k, l | 0 <= k < l < |all|
      ensures all[k] != all[l]
    {
      if l < |found| {
        assert all[k] == found[k] && all[l] == found[l];
      } else if k < |found| {
        assert all[k] in found && all[l] in here;
      } else {
        assert all[k] == here[k - |found|] && all[l] == here[l - |found|];
      }
    }
  }

  /**
   * The walk along the terminal links at one text position: `node` spells a
   * suffix of `t`, and `found` holds, once each, exactly the pattern suffixes
   * of `t` longer than `node`'s string.
   */
  ghost predicate ChainState(nodes: seq<Node>, patterns: seq<seq<char>>, t: seq<char>, pos: nat, node: nat, found: seq<Report>)
  {
    && TreeShape(nodes) && node < |nodes| && IsSuffix(Str(nodes, node), t)
    && (forall i: nat :: Occurs(patterns, t, i) ==> |patterns[i]| <= |Str(nodes, node)| || Report(pos, i) in found)
    && (forall r :: r in found ==> r.pos == pos && Occurs(patterns, t, r.index) && |patterns[r.index]| > |Str(nodes, node)|)
    && (forall k, l :: 0 <= k < l < |found| ==> found[k] != found[l])
    && LongestFirst(patterns, found)
  }

  /** The walk starts at the state reached on `t`, with nothing reported. */
  lemma ChainStart(nodes: seq<Node>, terminals: seq<nat>, patterns: seq<seq<char>>, t: seq<char>, pos: nat)
    requires Stores(nodes, terminals, patterns)
    ensures ChainState(nodes, patterns, t, pos, Longest(nodes, t), [])
  {
    LongestSpec(nodes, t);
    PatternsWithinLongest(nodes, terminals, patterns, t);
  }

  /** Reporting the patterns of `node` and following its terminal link to another node keeps the walk's state. */
  lemma ChainStep(nodes: seq<Node>, terminals: seq<nat>, patterns: seq<seq<char>>, t: seq<char>, pos: nat, node: nat,
                  found: seq<Report>, here: seq<Report>)
    requires Stores(nodes, terminals, patterns) && ChainState(nodes, patterns, t, pos, node, found)
    requires forall r :: r in here <==> r.pos == pos && r.index < |patterns| && patterns[r.index] == Str(nodes, node)
    requires forall k, l :: 0 <= k < l < |here| ==> here[k].index < here[l].index
    requires TerminalLinkOf(nodes, node) != node
    ensures ChainState(nodes, patterns, t, pos, TerminalLinkOf(nodes, node), found + here)
    ensures |Str(nodes, TerminalLinkOf(nodes, node))| < |Str(nodes, node)|
  {
    ReportsJoin(nodes, patterns, t, pos, node, found, here);
    OrderJoin(patterns, found, here, |Str(nodes, node)|);
    TerminalNext(nodes, terminals, patterns, t, node);
  }

  /** Reporting the patterns of a node that links to itself completes the reports: every pattern suffix of `t`, once. */
  lemma ChainEnd(nodes: seq<Node>, terminals: seq<nat>, patterns: seq<seq<char>>, t: seq<char>, pos: nat, node: nat,
                 found: seq<Report>, here: seq<Report>)
    requires Stores(nodes, terminals, patterns) && ChainState(nodes, patterns, t, pos, node, found)
    requires forall r :: r in here <==> r.pos == pos && r.index < |patterns| && patterns[r.index] == Str(nodes, node)
    requires forall k, l :: 0 <= k < l < |here| ==> here[k].index < here[l].index
    requires TerminalLinkOf(nodes, node) == node
    ensures forall r :: r in found + here <==> r.pos == pos && Occurs(patterns, t, r.index)
    ensures forall k, l :: 0 <= k < l < |found + here| ==> (found + here)[k] != (found + here)[l]
    ensures LongestFirst(patterns, found + here)
  {
    ReportsJoin(nodes, patterns, t, pos, node, found, here);
    OrderJoin(patterns, found, here, |Str(nodes, node)|);
    TerminalSelf(nodes, terminals, patterns, t, node);
    forall r: Report | r.pos == pos && Occurs(patterns, t, r.index)
      ensures r in found + here
    {
      assert r == Report(pos, r.index);
    }
  }

  /**
   * The reports for the positions before `pos`: exactly the patterns ending
   * at each such position, ordered by position, without repeats.
   */
  ghost predicate ReportsUpTo(patterns: seq<seq<char>>, text: seq<char>, pos: nat, reports: seq<Report>)
  {
    && (forall r :: r in reports <==> r.pos < pos && r.pos < |text| && Occurs(patterns, text[..r.pos + 1], r.index))
    && (forall k, l :: 0 <= k < l < |reports| ==> reports[k].pos <= reports[l].pos)
    && (forall k, l :: 0 <= k < l < |reports| ==> reports[k] != reports[l])
    && (forall k, l :: 0 <= k < l < |reports| && reports[k].pos == reports[l].pos ==>
          ReportedBefore(patterns, reports[k], reports[l]))
  }

  /** Appending the reports found at `pos` extends the reports up to `pos` to the reports up to `pos + 1`. */
  lemma ReportsStep(patterns: seq<seq<char>>, text: seq<char>, pos: nat, reports: seq<Report>, found: seq<Report>)
    requires pos < |text| && ReportsUpTo(patterns, text, pos, reports)
    requires forall r :: r in found <==> r.pos == pos && Occurs(patterns, text[..pos + 1], r.index)
    requires forall k, l :: 0 <= k < l < |found| ==> found[k] != found[l]
    requires LongestFirst(patterns, found)
    ensures ReportsUpTo(patterns, text, pos + 1, reports + found)
  {
    PositionJoin(reports, found, pos);
    PositionOrderJoin(patterns, reports, found, pos);
  }

  /** Appending the reports of position `pos` after those of earlier positions keeps each position longest first. */
  lemma PositionOrderJoin(patterns: seq<seq<char>>, reports: seq<Report>, found: seq<Report>, pos: nat)
    requires forall r :: r in reports ==> r.pos < pos
    requires forall k, l :: 0 <= k < l < |reports| && reports[k].pos == reports[l].pos ==>
               ReportedBefore(patterns, reports[k], reports[l])
    requires forall r :: r in found ==> r.pos == pos
    requires LongestFirst(patterns, found)
    ensures forall k, l :: 0 <= k < l < |reports + found| && (reports + found)[k].pos == (reports + found)[l].pos ==>
              ReportedBefore(patterns, (reports + found)[k], (reports + found)[l])
  {
    var all := reports + found;
    forall k, l | 0 <= k < l < |all| && all[k].pos == all[l].pos
      ensures ReportedBefore(patterns, all[k], all[l])
    {
      if l < |reports| {
        assert all[k] == reports[k] && all[l] == reports[l];
      } else if k < |reports| {
        assert false;
      } else {
        assert all[k] == found[k - |reports|] && all[l] == found[l - |reports|];
      }
    }
  }

  /** Appending the reports of position `pos` after those of earlier positions keeps them ordered and distinct. */
  lemma PositionJoin(reports: seq<Report>, found: seq<Report>, pos: nat)
    requires forall r :: r in reports ==> r.pos < pos
    requires forall k, l :: 0 <= k < l < |reports| ==> reports[k].pos <= reports[l].pos
    requires forall k, l :: 0 <= k < l < |reports| ==> reports[k] != reports[l]
    requires forall r :: r in found ==> r.pos == pos
    requires forall k, l :: 0 <= k < l < |found| ==> found[k] != found[l]
    ensures forall k, l :: 0 <= k < l < |reports + found| ==> (reports + found)[k].pos <= (reports + found)[l].pos
    ensures forall k, l :: 0 <= k < l < |reports + found| ==> (reports + found)[k] != (reports + found)[l]
  {
    var all := reports + found;
    forall k, l | 0 <= k < l < |all|
      ensures all[k].pos <= all[l].pos && all[k] != all[l]
    {
      if l < |reports| {
        assert all[k] == reports[k] && all[l] == reports[l];
      } else if k < |reports| {
        assert all[k] in reports && all[l] in found;
      } else {
        assert all[k] == found[k - |reports|] && all[l] == found[l - |reports|];
      }
    }
  }

  /** The state of the breadth-first pass once the root is expanded. */
  lemma BfsStart(nodes: seq<Node>, queue: seq<nat>)
    requires TreeShape(nodes)
    requires forall v :: v in queue ==> 0 < v < |nodes| && Depth(nodes, v) == 1
    requires forall i, j :: 0 <= i < j < |queue| ==> queue[i] != queue[j]
    requires forall w :: 0 < w < |nodes| ==> (w in queue <==> nodes[w].parent == 0)
    ensures BfsState(nodes, {0}, queue)
  {
    forall i | 0 <= i < |queue|
      ensures 0 < queue[i] < |nodes| && Depth(nodes, queue[i]) == 1
    {
      assert queue[i] in queue;
    }
  }

  /**
   * The inner loop's queue: `added` follows `queue`, holds exactly the
   * children of `node` whose edge labels are no longer `remaining`, and the
   * whole queue has no repeats.
   */
  ghost predicate ChildQueue(nodes: seq<Node>, node: nat, queue: seq<nat>, added: seq<nat>, remaining: set<char>)
  {
    && TreeShape(nodes) && node < |nodes|
    && (forall v :: v in queue ==> v < |nodes| && nodes[v].parent != node)
    && (forall v :: v in added ==> 0 < v < |nodes| && nodes[v].parent == node)
    && (forall w :: 0 < w < |nodes| && nodes[w].parent == node ==> (w in added <==> nodes[w].prevChar !in remaining))
    && (forall i, j :: 0 <= i < j < |queue + added| ==> (queue + added)[i] != (queue + added)[j])
  }

  /** Before the inner loop: nothing added, every edge label of `node` remaining. */
  lemma ChildQueueStart(nodes: seq<Node>, node: nat, queue: seq<nat>, edges: map<char, nat>)
    requires TreeShape(nodes) && node < |nodes|
    requires forall v :: v in queue ==> v < |nodes| && nodes[v].parent != node
    requires forall i, j :: 0 <= i < j < |queue| ==> queue[i] != queue[j]
    requires forall w :: 0 < w < |nodes| && nodes[w].parent == node ==> nodes[w].prevChar in edges
    ensures ChildQueue(nodes, node, queue, [], edges.Keys)
  {
    assert queue + [] == queue;
  }

  /** Once every edge label of `node` is done, `added` holds exactly the children of `node`. */
  lemma ChildQueueDone(nodes: seq<Node>, node: nat, queue: seq<nat>, added: seq<nat>)
    requires ChildQueue(nodes, node, queue, added, {})
    ensures forall v :: v in added <==> 0 < v < |nodes| && nodes[v].parent == node
    ensures forall i, j :: 0 <= i < j < |queue + added| ==> (queue + added)[i] != (queue + added)[j]
  {
  }

  /** Once every edge label of the root is done, the queue holds exactly the root's children, at depth 1. */
  lemma RootQueue(nodes: seq<Node>, queue: seq<nat>)
    requires ChildQueue(nodes, 0, [], queue, {})
    ensures forall v :: v in queue ==> 0 < v < |nodes| && Depth(nodes, v) == 1
    ensures forall i, j :: 0 <= i < j < |queue| ==> queue[i] != queue[j]
    ensures forall w :: 0 < w < |nodes| ==> (w in queue <==> nodes[w].parent == 0)
  {
    assert [] + queue == queue;
    forall v | v in queue
      ensures 0 < v < |nodes| && Depth(nodes, v) == 1
    {
      assert 0 < v < |nodes| && nodes[v].parent == 0;
      assert Str(nodes, v) == Str(nodes, 0) + [nodes[v].prevChar];
    }
  }

  /** Queuing the child `c` reached by label `ch` keeps the inner loop's queue. */
  lemma EnqueueChild(nodes: seq<Node>, node: nat, queue: seq<nat>, added: seq<nat>, remaining: set<char>, ch: char, c: nat)
    requires ChildQueue(nodes, node, queue, added, remaining) && ch in remaining
    requires 0 < c < |nodes| && nodes[c].parent == node && nodes[c].prevChar == ch
    ensures ChildQueue(nodes, node, queue, added + [c], remaining - {ch})
  {
    var q := queue + added;
    assert c !in q by {
      if c in queue {
      } else if c in added {
      }
    }
    assert queue + (added + [c]) == q + [c];
    forall w | 0 < w < |nodes| && nodes[w].parent == node
      ensures w in added + [c] <==> nodes[w].prevChar !in remaining - {ch}
    {
      assert HangsFromParent(nodes, w);
      assert HangsFromParent(nodes, c);
    }
  }

  /** The elements of a queue, as a set. */
  ghost function Elems(q: seq<nat>): (r: set<nat>)
    ensures forall v :: v in r <==> v in q
  {
    set v | v in q
  }

  lemma ElemsSnoc(q: seq<nat>, x: nat)
    ensures Elems(q + [x]) == Elems(q) + {x}
  {
    assert forall v :: v in q + [x] <==> v in q || v == x;
  }

  /** Dropping the front of `queue` and appending: the elements of the result. */
  lemma ElemsSplit(processed: set<nat>, queue: seq<nat>, newQueue: seq<nat>)
    requires |queue| > 0 && |queue| - 1 <= |newQueue| && newQueue[..|queue| - 1] == queue[1..]
    ensures processed + {queue[0]} + Elems(newQueue) <= processed + Elems(queue) + Elems(newQueue[|queue| - 1..])
  {
    assert newQueue == newQueue[..|queue| - 1] + newQueue[|queue| - 1..];
    forall v | v in newQueue
      ensures v in queue || v in newQueue[|queue| - 1..]
    {
      if v in newQueue[..|queue| - 1] {
        assert v in queue[1..];
      }
    }
  }

  /**
   * The state of the breadth-first pass: `processed` nodes have had their
   * children queued; a node is processed or queued exactly when its parent
   * is processed; the queue holds distinct unprocessed nodes whose depths
   * grow by at most one from front to back, none shallower than a processed
   * node.
   */
  ghost predicate BfsState(nodes: seq<Node>, processed: set<nat>, queue: seq<nat>)
  {
    && TreeShape(nodes)
    && 0 in processed && (forall v :: v in processed ==> v < |nodes|)
    && (forall w :: 0 < w < |nodes| ==> (w in processed || w in queue <==> nodes[w].parent in processed))
    && (forall i :: 0 <= i < |queue| ==> 0 < queue[i] < |nodes| && queue[i] !in processed)
    && (forall i, j :: 0 <= i < j < |queue| ==> queue[i] != queue[j])
    && (forall i, j :: 0 <= i <= j < |queue| ==>
          Depth(nodes, queue[i]) <= Depth(nodes, queue[j]) <= Depth(nodes, queue[i]) + 1)
    && (forall v :: v in processed && |queue| > 0 ==> Depth(nodes, v) <= Depth(nodes, queue[0]))
  }

  /** The queue front is unprocessed, and none of its children is queued yet. */
  lemma BfsPop(nodes: seq<Node>, processed: set<nat>, queue: seq<nat>)
    requires BfsState(nodes, processed, queue) && |queue| > 0
    ensures 0 < queue[0] < |nodes| && queue[0] !in processed
    ensures forall v :: v in queue[1..] ==> v < |nodes| && nodes[v].parent != queue[0]
    ensures forall i, j :: 0 <= i < j < |queue[1..]| ==> queue[1..][i] != queue[1..][j]
  {
    forall v | v in queue[1..]
      ensures v < |nodes| && nodes[v].parent != queue[0]
    {
      assert v in queue;
    }
  }

  /**
   * Expanding the queue front: dropping it from the queue, appending its
   * children and marking it processed keeps the state of the pass.
   */
  lemma BreadthFirstStep(nodes: seq<Node>, processed: set<nat>, queue: seq<nat>, newQueue: seq<nat>)
    requires BfsState(nodes, processed, queue) && |queue| > 0
    requires |queue| - 1 <= |newQueue| && newQueue[..|queue| - 1] == queue[1..]
    requires forall v :: v in newQueue[|queue| - 1..] <==> 0 < v < |nodes| && nodes[v].parent == queue[0]
    requires forall i, j :: 0 <= i < j < |newQueue| ==> newQueue[i] != newQueue[j]
    ensures BfsState(nodes, processed + {queue[0]}, newQueue)
  {
    StepElements(nodes, processed, queue, newQueue);
    StepReach(nodes, processed, queue, newQueue);
    var node := queue[0];
    var n := |queue| - 1;
    forall i, j | 0 <= i <= j < |newQueue|
      ensures Depth(nodes, newQueue[i]) <= Depth(nodes, newQueue[j]) <= Depth(nodes, newQueue[i]) + 1
    {
      if j < n {
        assert newQueue[i] == queue[i + 1] && newQueue[j] == queue[j + 1];
      }
    }
  }

  /**
   * Each element of the expanded queue: an old queue entry after the front,
   * or a child of the front one level deeper; none is processed.
   */
  lemma StepElements(nodes: seq<Node>, processed: set<nat>, queue: seq<nat>, newQueue: seq<nat>)
    requires BfsState(nodes, processed, queue) && |queue| > 0
    requires |queue| - 1 <= |newQueue| && newQueue[..|queue| - 1] == queue[1..]
    requires forall v :: v in newQueue[|queue| - 1..] <==> 0 < v < |nodes| && nodes[v].parent == queue[0]
    ensures forall i :: 0 <= i < |newQueue| ==>
              && 0 < newQueue[i] < |nodes| && newQueue[i] !in processed + {queue[0]}
              && Depth(nodes, queue[0]) <= Depth(nodes, newQueue[i]) <= Depth(nodes, queue[0]) + 1
              && (|queue| - 1 <= i ==> Depth(nodes, newQueue[i]) == Depth(nodes, queue[0]) + 1)
              && (i < |queue| - 1 ==> newQueue[i] == queue[i + 1])
  {
    var node := queue[0];
    var n := |queue| - 1;
    var tail := newQueue[n..];
    forall i | 0 <= i < |newQueue|
      ensures 0 < newQueue[i] < |nodes| && newQueue[i] !in processed + {node}
      ensures Depth(nodes, node) <= Depth(nodes, newQueue[i]) <= Depth(nodes, node) + 1
      ensures n <= i ==> Depth(nodes, newQueue[i]) == Depth(nodes, node) + 1
      ensures i < n ==> newQueue[i] == queue[i + 1]
    {
      var v := newQueue[i];
      if i < n {
        assert v == queue[1..][i] == queue[i + 1];
      } else {
        assert v == tail[i - n];
        assert v in tail;
        assert 0 < v < |nodes| && nodes[v].parent == node;
        assert Str(nodes, v) == Str(nodes, node) + [nodes[v].prevChar];
      }
    }
  }

  /** After the expansion, a node is processed or queued exactly when its parent is processed. */
  lemma StepReach(nodes: seq<Node>, processed: set<nat>, queue: seq<nat>, newQueue: seq<nat>)
    requires BfsState(nodes, processed, queue) && |queue| > 0
    requires |queue| - 1 <= |newQueue| && newQueue[..|queue| - 1] == queue[1..]
    requires forall v :: v in newQueue[|queue| - 1..] <==> 0 < v < |nodes| && nodes[v].parent == queue[0]
    ensures forall w :: 0 < w < |nodes| ==>
              (w in processed + {queue[0]} || w in newQueue <==> nodes[w].parent in processed + {queue[0]})
  {
    var node := queue[0];
    var n := |queue| - 1;
    var p := processed + {node};
    var tail := newQueue[n..];
    assert newQueue == queue[1..] + tail;
    forall w | 0 < w < |nodes|
      ensures w in p || w in newQueue <==> nodes[w].parent in p
    {
      assert w in newQueue <==> w in queue[1..] || w in tail;
      assert w in queue <==> w == node || w in queue[1..];
    }
  }

  /** When the queue runs empty, every node has been processed. */
  lemma AllReached(nodes: seq<Node>, processed: set<nat>, queue: seq<nat>)
    requires BfsState(nodes, processed, queue) && |queue| == 0
    ensures forall w :: 0 <= w < |nodes| ==> w in processed
  {
    forall w | 0 <= w < |nodes|
      ensures w in processed
    {
      ShallowDone(nodes, processed, queue, Depth(nodes, w), w);
    }
  }

  /** The node ids below `n`, the finite set the breadth-first loop's processed set grows within. */
  ghost function Below(n: nat): (r: set<nat>)
    ensures forall w: nat :: w in r <==> w < n
  {
    if n == 0 then {} else Below(n - 1) + {n - 1}
  }

  /**
   * Breadth-first search: when every node whose parent is processed is
   * processed or queued, and nothing queued is shallower than `depth`, every
   * node no deeper than `depth` is processed or queued.
   */
  lemma {:induction false} ShallowDone(nodes: seq<Node>, processed: set<nat>, queue: seq<nat>, depth: nat, w: nat)
    requires TreeShape(nodes) && w < |nodes| && 0 in processed
    requires forall v :: 0 < v < |nodes| ==> (v in processed || v in queue <==> nodes[v].parent in processed)
    requires forall v :: v in queue ==> v < |nodes| && depth <= Depth(nodes, v)
    requires Depth(nodes, w) <= depth
    ensures w in processed || w in queue
    decreases w
  {
    if w != 0 {
      var p := nodes[w].parent;
      ShallowDone(nodes, processed, queue, depth, p);
    }
  }
}
