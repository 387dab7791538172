# String algorithms: trie, Aho–Corasick, KMP, and strings from prefix and Z-functions

This project models, in Dafny, the algorithmic core of a small collection of
C++ string-algorithm exercises, and proves what each part computes:

- **`MapVectorTrie`** (C.cpp, duplicated in aho_corasick.hpp).
  - aho_corasick.hpp repeats the trie half of C.cpp line for line, 38 lines earlier (C.cpp:129 is aho_corasick.hpp:91). The table cites whichever copy it names, and every row about the trie covers both.
  - It is a prefix tree kept as an arena of nodes indexed by id, with the root at 0.
  - Each node records its parent, its incoming character, its dictionary entries and a map of outgoing edges.
  - Inserting a character sequence walks down from the root and creates missing nodes. It then records the next dictionary index, 0, 1, 2, …, at the node reached.
  - The Dafny class `Trie.MapVectorTrie` holds the arena as a `seq<Node>`, plus the table of terminal nodes and the two counters.
  - A ghost field records the inserted sequences, and `Valid()` ties the arena to them.
- **`AhoCorasickAutomaton`** (C.cpp).
  - It holds the trie plus two link tables indexed by node id, modelled as two `array<nat>`.
  - `ComputeLinks` fills the tables breadth first.
  - `GetNext` is the transition that falls back along suffix links.
  - `ProcessText` reports every (position, pattern index) pair where a pattern ends.
  - The links are specified on the arena (`AhoCorasickModel`):
    - `Longest(x)` is the node spelling the longest suffix of `x` that is in the trie.
    - The suffix link of `v` is `Longest` of `v`'s string minus its first character.
    - The terminal link of `v` is the deepest node with entries that spells a proper suffix of `v`'s string, or `v` itself when no such node exists.
- **Prefix function and Knuth–Morris–Pratt search** (A.cpp).
  - The specification is `MatchLen(p, t)`, the length of the longest prefix of `p` that is a suffix of `t`.
  - The prefix function of `s` at `k` is `MatchLen(s, s[1..k+1])`. It is proved to be the length of the longest proper border of `s[..k+1]`.
- **Prefix function to string** (B1.cpp).
  - The class `PrefixFuncToStringConverter` appends one letter per prefix-function value.
  - A positive value copies an earlier letter.
  - A zero picks the smallest letter that is not on the border chain of the previous value.
- **Z-function to string** (B2.cpp).
  - `ConvertZFuncToString` grows a string left to right.
  - It copies inside Z-blocks that reach past the end, and picks a fresh smallest letter where a block of length 0 ends.
  - It keeps a stack of the blocks that end at the current end of the string.

The 26-letter scan shared by both string generators is in `Letters`. Suffix facts about sequences are in `Words`.

## Model

| member | source | states |
|---|---|---|
| Trie.MapVectorTrie.constructor | C.cpp:195-199 | The new trie has only the root, whose parent is 0 and whose incoming character is NUL. The dictionary is empty, the tree size is 1, and the trie is valid. |
| Trie.MapVectorTrie.AddNode | C.cpp:201-209 | Appends exactly one node, with id equal to the old node count. Its parent is `node`, its incoming character is `ch`, and it has no entries and no edges. The parent's edge on `ch` now leads to it. Every other node is unchanged. |
| Trie.MapVectorTrie.AddEntryToNode | C.cpp:211-218 | Appends `index` to the entries of `node`. It grows the terminal table to `index + 1` with root ids when `index` is past its end, and records `node` at `index`. Every other slot is kept. |
| Trie.MapVectorTrie.Insert | C.cpp:126-143 | Keeps the trie valid and appends the sequence to the dictionary. The dictionary size grows by one, and the terminal table gains the returned node. The returned node spells the sequence, and its entries gain the old dictionary size. Every old node keeps its string. A sequence already in the trie lands on its existing node and creates no node, so a duplicate's node holds both indices. Every node it creates spells a prefix of the sequence that the trie did not hold before. |
| Trie.MapVectorTrie.AddPath | C.cpp:131-140 | The walk of `Insert`. It keeps the trie valid and returns the node spelling the sequence. Old nodes keep their parent, character and entries, and new nodes have no entries. Every new node spells a prefix of the sequence that the old trie did not hold, so no two new nodes spell the same prefix. When the sequence was already in the trie, the arena is unchanged. |
| Trie.MapVectorTrie.Descend | C.cpp:133-139 | One step of the walk. It returns a node spelling the current node's string plus `ch`, and the tree size keeps counting the nodes. When the edge exists, nothing changes. When it is missing, exactly one node is added below `node` under `ch`, with id equal to the old node count. |
| Trie.MapVectorTrie.Traverse | aho_corasick.hpp:128-141 | Returns the node reached by following the sequence from `start`, which spells `start`'s string plus the sequence. At the first missing edge it returns `start` itself. |
| Trie.MapVectorTrie.Find | aho_corasick.hpp:107-113 | Returns the node spelling the sequence when it is in the trie, and the root otherwise. |
| Trie.MapVectorTrie.GetString | aho_corasick.hpp:143-153 | The parent walk and the reverse return exactly the string spelled from the root to the node. |
| Trie.MapVectorTrie.GetStringByIndex | aho_corasick.hpp:189-193 | For every index below the dictionary size, returns exactly the sequence inserted with that index. |
| Trie.MapVectorTrie.Root | C.cpp:233-237 | The root is a node and spells the empty string. |
| Trie.MapVectorTrie.TreeSize | C.cpp:160-164 | The tree size equals the number of nodes. |
| Trie.MapVectorTrie.DictionarySize | C.cpp:153-158 | The dictionary size equals the number of inserted sequences. |
| Trie.MapVectorTrie.GetNext | aho_corasick.hpp:201-208 | Returns `node` itself exactly when it has no edge on `ch`. Otherwise it returns the child, which spells `node`'s string plus `ch`. |
| Trie.MapVectorTrie.GetParent | C.cpp:248-252 | The root's parent is the root. Any other node's parent has a smaller id and spells the node's string minus its last character. |
| Trie.MapVectorTrie.GetIncomingChar | C.cpp:254-258 | For a non-root node, the result is the last character of the node's string. |
| Trie.MapVectorTrie.GetDictionaryEntries | C.cpp:220-225 | The entries are exactly the indices of the inserted sequences that the node spells, in ascending order. |
| Trie.MapVectorTrie.GetOutcomingEdges | C.cpp:260-264 | Each edge leads to a node spelling `node`'s string plus its label. Every child of `node` appears, under its incoming character. |
| TrieModel.AddNodeKeepsShape | C.cpp:201-209 | Adding a node where there is no edge keeps the arena a tree. Every old node keeps its string, and the new node spells its parent's string plus `ch`. |
| TrieModel.AddNodeKeepsDictionary | C.cpp:201-209 | Adding a node keeps every stored pattern at its terminal node and keeps every node's entries. |
| TrieModel.AddEntryKeepsDictionary | C.cpp:211-218 | Recording the next index at the node spelling `s` yields a dictionary that also stores `s` under that index. |
| TrieModel.EntriesSpec | C.cpp:220-225 | In a stored dictionary, a node's entries are exactly the indices of the patterns it spells, in ascending order. |
| TrieModel.PatternNode | C.cpp:227-231 | Every stored pattern is spelled by its terminal node, which lists the pattern's index among its entries. |
| TrieModel.InTrieIff | C.cpp:166-179 | A string is in the trie exactly when some node spells it, and the walk from the root ends at that node. |
| TrieModel.StrInjective | C.cpp:126-143 | No two nodes spell the same string, so equal insertions land on one node. |
| TrieModel.IndicesOfSpec | C.cpp:211-218 | The indices whose terminal node is `v` are listed each once, in ascending order. |
| TrieModel.ExtensionInTrie | C.cpp:239-246 | A node's string plus `c` is in the trie exactly when the node has an edge on `c`. |
| AhoCorasick.AhoCorasickAutomaton.constructor | C.cpp:268-276 | Allocates one slot per node in each link table and computes the links, leaving every node with its suffix link and its terminal link. |
| AhoCorasick.AhoCorasickAutomaton.Dictionary | C.cpp:278-282 | Returns the automaton's own trie, still valid. |
| AhoCorasick.AhoCorasickAutomaton.GetNext | C.cpp:284-296 | The fallback loop terminates. It returns the node spelling the longest suffix of `node`'s string plus `ch` that is in the trie. That is the root when no node on the suffix-link chain has an edge on `ch`. |
| AhoCorasick.AhoCorasickAutomaton.ComputeLinks | C.cpp:298-349 | Leaves every node with its specified suffix link and terminal link. |
| AhoCorasick.AhoCorasickAutomaton.LinkRootChild | C.cpp:312-319 | Gives a child of the root its specified links and leaves every other node's links unchanged. The suffix link is the root. The terminal link is the root when patterns end at the root, and the child itself otherwise. |
| AhoCorasick.AhoCorasickAutomaton.LinkChild | C.cpp:336-346 | Gives the child on edge `ch` its specified links, and leaves every other node's links unchanged. It needs every node no deeper than the parent to be linked already. |
| AhoCorasick.AhoCorasickAutomaton.ExpandFront | C.cpp:324-347 | One round of the loop. It pops the front node, queues its children and links them. The breadth-first invariant holds afterwards, and every processed or queued node is linked. |
| AhoCorasick.AhoCorasickAutomaton.LinkBreadthFirst | C.cpp:323-348 | Starting from the queue of the root's children, it runs until the queue is empty. Every node then holds its specified suffix link and terminal link. |
| AhoCorasick.AhoCorasickAutomaton.LinkRootChildren | C.cpp:300-321 | Queues exactly the children of the root, each once and all at depth 1, and links the root and each of them. |
| AhoCorasick.AhoCorasickAutomaton.LinkChildren | C.cpp:327-347 | Appends exactly the children of `node` to the queue, each once, and links each of them. |
| AhoCorasick.AhoCorasickAutomaton.ProcessText | C.cpp:351-367 | Reports `(pos, i)` exactly when pattern `i` ends at text position `pos`. Reports are in non-decreasing position order and never repeat. Within one position the longer pattern comes first, and equal patterns come in ascending index order. Duplicate patterns each get their own report, and an empty text or dictionary gives none. |
| AhoCorasick.AhoCorasickAutomaton.ReportAt | C.cpp:359-365 | The terminal-link walk from the current state reports every pattern that is a suffix of the text read so far, each exactly once. The longer pattern comes first, and equal patterns come in ascending index order. |
| AhoCorasick.AhoCorasickAutomaton.ReportNode | C.cpp:361-362 | One report per pattern spelled exactly by the node, in ascending index order. |
| AhoCorasick.BreadthFirstStep | C.cpp:323-348 | Expanding the queue front keeps the breadth-first invariant. Every node whose parent is processed is processed or queued, and queued depths stay sorted within one level. |
| AhoCorasick.AllReached | C.cpp:323-348 | When the queue runs empty, every node has been processed. |
| AhoCorasick.ShallowDone | C.cpp:323-348 | Every node no deeper than the queue front is processed or queued, so its links are already set when it is needed. |
| AhoCorasick.ChainStep | C.cpp:363-364 | Following a terminal link that is not a self-link reaches a shorter suffix. All pattern suffixes longer than it have been reported once. |
| AhoCorasick.ChainEnd | C.cpp:363 | At a self-link, the reports are exactly the pattern suffixes of the text read so far. |
| AhoCorasickModel.RootChildLinks | C.cpp:301-319 | The root's links are the root. A child of the root has the root as suffix link. Its terminal link is the root when patterns end at the root, and the child itself otherwise. |
| AhoCorasickModel.ChildSuffixLink | C.cpp:336-337 | The suffix link of a deeper child is the state that the parent's suffix link leads to on the child's character, and both links are shallower than the child. |
| AhoCorasickModel.ChildTerminalLink | C.cpp:338-346 | A child's terminal link is its suffix link when patterns end there. Otherwise it is the suffix link's terminal link, or the child itself when that is a self-link. |
| AhoCorasickModel.SuffixLinkProperSuffix | C.cpp:336-337 | A non-root node's suffix link spells a proper suffix of its string, and the longest one in the trie. |
| AhoCorasickModel.TerminalLinkSuffix | C.cpp:338-346 | A terminal link other than a self-link leads to a node with entries. That node spells a proper suffix of the node's string, and the deepest such one. |
| AhoCorasickModel.StepLongest | C.cpp:284-296 | The state after reading `x` and then `c` depends on `x` only through the state after `x`. |
| AhoCorasickModel.MissFollowsLink | C.cpp:291-293 | With no edge on `ch`: from the root the transition is the root. Elsewhere it is the transition from the suffix link, which is shallower. |
| AhoCorasickModel.LongestSpec | C.cpp:284-296 | `Longest(x)` spells a suffix of `x`, and no node spelling a suffix of `x` is deeper. |
| AhoCorasickModel.DictSuffixSpec | C.cpp:338-346 | The dictionary suffix of `x` is the deepest node with entries spelling a suffix of `x`. It is none exactly when no such node exists. |
| AhoCorasickModel.TerminalSelf | C.cpp:363 | When a node on the text's suffix links to itself, no pattern shorter than the node's string ends the text. |
| Kmp.GetNextPrefixFunctionValue | A.cpp:9-25 | From a matched length `current`, returns the matched length after one more character `ch`, which is at most `current + 1`. It compares with `str[current]` only when `current < |str|`. |
| Kmp.GetNextPrefixFunctionValueAsWritten | A.cpp:9-25 | The step as written. It needs `current < |str|` because it reads `str[current]` first. It returns the same matched length, at most `current + 1`. |
| Kmp.PrefixFunction | A.cpp:27-39 | Empty input gives an empty result. Otherwise the result has the input's length, starts with 0, and entry `k` is the prefix function at `k`. |
| Kmp.KnuthMorrisPratt | A.cpp:41-53 | Returns, strictly increasing, exactly the indices `i` such that the pattern ends `text[..i+1]`. |
| Kmp.PiIsLongestBorder | A.cpp:27-39 | The prefix function at `n - 1` is the length of the longest proper border of `s[..n]`. |
| Kmp.MatchLenSpec | A.cpp:41-53 | `MatchLen(p, t)` is a prefix of `p` ending `t`, and no longer prefix of `p` ends `t`. |
| Kmp.MatchLenStep | A.cpp:47-49 | The matched length after one more character depends only on the matched length before it. |
| Kmp.BorderChainStep | A.cpp:22 | Falling back from `v` to `func[v - 1]` skips no prefix that ends the text. |
| Kmp.ExtendAt | A.cpp:20 | A prefix that ends the text and is followed by `ch`, with no longer such prefix, gives a matched length one longer. |
| Kmp.NoExtension | A.cpp:21-24 | When no prefix ending the text is followed by `ch`, the matched length after `ch` is 0. |
| Kmp.SearchStep | A.cpp:46-50 | Reading `text[i]` moves the matched length one step. The pattern occurs ending at `i` exactly when the whole pattern is matched. |
| Kmp.FullMatchReadsPastPattern | A.cpp:20-50 | After matching "a" in "a", the matched length equals the pattern length, so the step as written would index one past the pattern. |
| Letters.SmallestFreeLetter | B1.cpp:66-71 | Returns the smallest letter outside `banned`, or none when all 26 are banned. |
| Letters.MinFreeSpec | B2.cpp:23-28 | The chosen letter is a lowercase letter outside `banned`, and every smaller letter is banned. It is none exactly when every letter is banned. |
| PrefixToString.PrefixFuncToStringConverter.constructor | B1.cpp:9-20 | Both buffers start empty. |
| PrefixToString.PrefixFuncToStringConverter.GetStringView | B1.cpp:33-37 | Returns the generated string, every character a lowercase letter. |
| PrefixToString.PrefixFuncToStringConverter.GetString | B1.cpp:39-42 | Returns the generated string and changes nothing. |
| PrefixToString.PrefixFuncToStringConverter.AppendPrefixFuncValue | B1.cpp:44-72 | Records the value; the first call records 0 whatever it is given. It appends 'a' on the first call and the letter at `val - 1` for a positive value. For a zero it appends the smallest letter not on the border chain of the previous value, or nothing when all 26 are on it. The string stays lowercase letters. |
| PrefixToString.PrefixFuncToStringConverter.AppendPrefixFuncValues | B1.cpp:74-82 | The same state as calling `AppendPrefixFuncValue` once per value, in order. |
| PrefixToString.StepShaped | B1.cpp:46-52 | Each call grows the values by exactly one and the string by at most one letter, and keeps every value at most its own index. |
| PrefixToString.FirstValue | B1.cpp:46-50 | The first call records 0 and appends 'a', whatever value it is given. |
| PrefixToString.ZeroValueKept | B1.cpp:58-71 | When the values so far are the prefix function of the string, a letter off the chain of the last value gives the extended string a prefix-function value of 0 at the new position. |
| PrefixToString.ChainLettersBreak | B1.cpp:58-65 | The converse of `ZeroValueKept`. When the values so far are the prefix function of the string, every letter on the chain of the last value gives a positive prefix-function value at the new position. |
| PrefixToString.ZeroLetterMinimal | B1.cpp:58-71 | For a zero, the letter picked is the lexicographically smallest letter that keeps the value 0. It keeps it, and every smaller letter breaks it. When no letter is picked, every letter breaks it. |
| PrefixToString.ChainLetterAt | B1.cpp:61-65 | Each letter on the chain from `u` follows a prefix of the string that ends `s[..u]`, so it extends a border. |
| PrefixToString.PositiveValueKept | B1.cpp:53-56 | When `val - 1` is a border length on the chain and no longer border is followed by the same letter, repeating the letter at `val - 1` gives the extended string a prefix-function value of `val`. |
| PrefixToString.ChainLettersCover | B1.cpp:61-65 | The chain `prev`, `pf[prev - 1]`, …, 0 visits every border of the string so far, so every letter that could extend a border is banned. |
| PrefixToString.PrefixFunctionDecreasing | B1.cpp:61 | A real prefix function has every value at most its index, so the chain strictly decreases. |
| ZToString.ConvertZFuncToString | B2.cpp:6-47 | Empty input gives the empty string. A result has exactly `|z|` characters, all lowercase letters, starting with 'a'. Each later position is either copied inside a Z-block or a fresh letter at a Z-value of 0 that differs from the first letter. Running out of letters is an error at a position in `1..|z|-1`. |
| ZToString.CopyBlock | B2.cpp:29-43 | Copying extends the string to the end of the block last switched to, and past the old end. Each new position repeats the character as far back as a block starting at or after `i` that covers it. |
| ZToString.BanStack | B2.cpp:20-22 | Draining the stack bans exactly the letters at `z[j]` for every stacked block `j`. |
| ZToString.CloseZeroBlock | B2.cpp:16-28 | At a block of length 0, picks the smallest letter not banned by the stack. It is a letter and differs from the first letter. |
| ZToString.CopiedExplained | B2.cpp:29-43 | Positions copied inside blocks, together with the positions already explained, leave every position explained. |
| ZToString.FreshExplained | B2.cpp:23-28 | A fresh letter at a Z-value of 0 that differs from the first letter explains the new position. |

## Left out

- The `main` functions of A.cpp, B1.cpp and B2.cpp, which are stream input and output. This includes the printed start offset and B2's `z_func[0] = 0`; the model never reads `z[0]`.
- The `ITrie` abstract base and virtual dispatch, `IterableWrapper`, and the `ContainerGen`/`GenerateVector` allocation. The automaton fixes `MapVectorTrie` and allocates both tables with `TreeSize()` slots.
- The order of children. `std::map` iterates children by character. The model picks the next child arbitrarily, and every result is proved for any order.
- The automaton takes its trie by move in C.cpp. The model keeps a reference to the trie and requires it to stay valid and unchanged.
- `ProcessText` calls an `action(pos, index)` callback. The model returns the sequence of calls as `Report` values, in call order.
- `std::bitset<26>` is modelled as a `set<char>` of banned letters. The scan over the 26 letters is kept.
- `size_t` overflow, allocation failure and `noexcept` are not modelled, and integers are unbounded.
- ConvertZFuncToString: when all 26 letters are banned at position `i`, the source appends nothing. At the last position this returns a string one letter short. Otherwise the next copy reads `generated_string[current_pos - current_z_block]` with a `size_t` underflow (B2.cpp:38). The model stops with `Err(i)` instead of following that path.
- ConvertZFuncToString: it does not prove that the Z-function of the result equals `z`. It proves the length, the alphabet, the first letter, and that every position is copied inside a Z-block or a fresh letter at a Z-value of 0.
- ConvertZFuncToString: it requires `i + z[i] <= |z|` for `i >= 1`. Without that, the copy loop reads `z_func` past its end (B2.cpp:32-33).
- AppendPrefixFuncValue: it requires that a positive value be at most the string length. For a zero, the previous value must index an existing letter. Without these the source reads past `generated_string_` (B1.cpp:54, 63).
- AppendPrefixFuncValues: it does not prove that the prefix function of the generated string equals the values given, even when they are a genuine prefix function. Each step is proved on its own. A positive value reproduces itself under the border conditions that `PositiveValueKept` states. For a zero, the letter picked is the smallest one that keeps the value 0 (`ZeroLetterMinimal`). Showing that a genuine prefix function always meets those conditions needs a characterisation of the strings that share a prefix function, which this model does not have.
- KnuthMorrisPratt: it uses the step that compares only inside the pattern (see Findings). `PrefixFunction` uses the step as written, where `current < |str|` holds.

## Findings

| source | as written | input that shows it | evidently intended | confidence | as-written member | corrected member |
|---|---|---|---|---|---|---|
| A.cpp:20 (called from A.cpp:47-50) | The step compares `ch` with `str[current_value]` before any bounds check. After a full match, `accumulated_length == pattern.size()` is passed back in, so the next step reads `pattern[pattern.size()]`. An empty pattern reads `pattern[0]`. | pattern "a", text "aa": after index 0 the matched length is 1, so index 1 reads `pattern[1]` | Compare only when `current_value < pattern.size()`, and otherwise fall back along the border chain | not executed | Kmp.GetNextPrefixFunctionValueAsWritten, Kmp.FullMatchReadsPastPattern | Kmp.GetNextPrefixFunctionValue, Kmp.KnuthMorrisPratt |
