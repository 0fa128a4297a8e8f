# Bloom filter, prefix tree and word store, verified in Dafny

This project models the three string-set structures of a C++ coursework
library (AUT AP 2024 Spring, HW3):

- **CDNServer** is the exact word store. It keeps a set of unique words and
  counts the membership queries it answers.
- **BloomFilter** is a probabilistic membership filter. It has a bit array
  of width N, K seeded hash functions and one seed per hash function.
  - Adding an item sets its K positions; a query tests them.
  - "Certainly contains" settles a "maybe" by asking the CDNServer.
  - `&` and `|` combine two filters of the same width bit by bit.
- **Trie** is a 26-ary prefix tree over 'a'..'z'. Each node has a parent
  link, 26 child links, its letter and a "word ends here" flag.
  - Its operations are insert, search, startsWith and remove. Remove
    prunes the trace of nodes that no longer lead to a word.
  - It also has the word-set algebra `+`, `+=`, `-`, `-=`, `==`, `!=` and
    call syntax, a copy constructor and a constructor from a list.

Only CDNServer is implemented in the library. BloomFilter and Trie are
declared only. Most of their operations carry a one-line comment saying what
they do; the trie's constructors, `insert` and `search` carry none and are
read from their names. The bodies here follow those comments and names.

## Files

| file | module | what it holds |
|---|---|---|
| `cdn_server.dfy` | `Cdn` | A class with the word set and the usage count as fields. |
| `bit_model.dfy` | `Bits` | The bit array as a value: setting positions, clearing, AND, OR, and the lemmas about them. |
| `bloom_filter.dfy` | `Bloom` | The filter as a class over an `array<bool>`. Its methods are proved against `Bits`. |
| `word_sets.dfy` | `WordSets` | The alphabet: letters, child slots and words. |
| `trie.dfy` | `TrieNodes`, `PrefixTree` | The node arena and its invariant, plus the step lemmas for insert, walk, enumeration and remove. `PrefixTree.Trie` is the class. |

### The filter

The filter's abstraction is the ghost set `Added`: the items the filter is
guaranteed to report as "maybe". Adding puts an item in it and reset
empties it. `&` keeps only the items both filters hold, and `|` brings in
the other filter's items, each where both filters compute the same
positions for the item.

- `Valid()` says that every added item reads as "maybe" (no false
  negatives). It also says that K ≥ 1 and the seeds are 0, 1, ..., K-1.
- `Add` is a loop over the seeds. It is proved equal to the value-level
  `Bits.SetAll` of the item's positions. Everything else about adding
  (monotone, idempotent, no false negatives) is proved about `SetAll`.

### The prefix tree

The trie is held in an arena. `nodes` is a sequence of `Node` values, and a
link is a position in it, with `Nil` (-1) as the null pointer. The ghost
sequence `stored` gives, for each node, the set of words spelled from it
down to a finished node. `Contents()` is the root's set.

The invariant `Inv` holds node by node and has three parts:

- **Linked**: 26 slots; each child sits later in the arena, points back to
  its parent and carries the slot's letter.
- **Spells**: the words below a node are read off its flag and its
  children.
- **Pruned**: no child leads to no word.

Every operation is stated against `Contents()`. Insert and remove walk the
path step by step, and each step has a lemma that keeps a relaxed form of
`Inv`. For remove, the method walks back up the parent links and unlinks
every node that no longer leads to a word.

## Model

| member | source | states |
|---|---|---|
| Cdn.CDNServer.constructor | include/CDNServer.h:11 | A new server stores no word and its usage count is 0. |
| Cdn.CDNServer.AddWord | include/CDNServer.h:14-16 | The word set becomes the old set plus the word, so re-adding changes nothing. The usage count is unchanged. |
| Cdn.CDNServer.CheckWord | include/CDNServer.h:19-22 | The answer is true exactly when the word was stored. The word set is unchanged and the usage count goes up by exactly one. |
| Cdn.CDNServer.GetUsageCount | include/CDNServer.h:25-27 | Returns the usage count and changes nothing. |
| Bits.SetAll | Include/BloomFilter.h:26-27 | Setting positions keeps the width of the bit array. |
| Bits.Cleared | Include/BloomFilter.h:41-42 | A reset array has the filter's width. |
| Bits.And | Include/BloomFilter.h:45 | The intersection of two arrays keeps their width. |
| Bits.Or | Include/BloomFilter.h:46 | The union of two arrays keeps their width. |
| Bits.SetAllAt | Include/BloomFilter.h:26-27 | After adding, a bit is set exactly when it was set before or is one of the item's positions. |
| Bits.SetAllGrows | Include/BloomFilter.h:26-27 | Adding never clears a bit. |
| Bits.NoFalseNegative | Include/BloomFilter.h:26-32 | After adding, every position of the item is set. |
| Bits.SetAllMonotone | Include/BloomFilter.h:26-32 | An item that read as "maybe" still does after another item is added. |
| Bits.SetAllIdempotent | Include/BloomFilter.h:26-27 | Adding the same positions twice gives the same bits as adding them once. |
| Bits.ClearedRejects | Include/BloomFilter.h:41-42 | A cleared array answers "no" for every item that has at least one position. |
| Bits.AndAllSet | Include/BloomFilter.h:45 | The AND of two arrays says "maybe" exactly when both operands do, in both directions. |
| Bits.OrAllSet | Include/BloomFilter.h:46 | The OR of two arrays says "maybe" whenever either operand does. |
| Bloom.BloomFilter.Slots | Include/BloomFilter.h:68-72 | The K positions of an item: one per seed, each below N. They depend on the item and the seeds only, so repeated queries use the same positions. |
| Bloom.BloomFilter.constructor | Include/BloomFilter.h:11-15 | Builds a filter of the given width with K hash functions whose seeds are 0, 1, ..., K-1, so two filters built with the same width, K and hash compute the same positions for every item. Every bit is clear and no item is added. |
| Bloom.BloomFilter.Add | Include/BloomFilter.h:26-27 | The bits become exactly the old bits with the item's positions set. No bit is cleared, and re-adding an added item leaves the bits as they were. Afterwards the item reads as "maybe", and so does every item that did before. |
| Bloom.BloomFilter.PossiblyContains | Include/BloomFilter.h:31-32 | True exactly when all K positions of the item are set, and always true for an added item. |
| Bloom.BloomFilter.CertainlyContains | Include/BloomFilter.h:36-37 | On a filter "no", answers false without querying the server. Otherwise it returns the server's exact answer and costs exactly one query. The server's words are unchanged. |
| Bloom.BloomFilter.Reset | Include/BloomFilter.h:41-42 | Every bit is clear; width, K and seeds are kept. Afterwards no item reads as "maybe". |
| Bloom.BloomFilter.Intersect | Include/BloomFilter.h:45 | The bits become the AND of both filters' old bits, and the other filter is unchanged. An item reads as "maybe" afterwards only if it did before. Where both filters compute the same positions for the item, it reads as "maybe" exactly when both did, and for filters built with the same width, K and hash that holds for every item. Returns this filter. |
| Bloom.BloomFilter.Union | Include/BloomFilter.h:46 | The bits become the OR of both filters' old bits, and the other filter is unchanged. Whatever read as "maybe" in this filter still does, and so does what read as "maybe" in the other one where both compute the same positions for the item. For filters built with the same width, K and hash, everything the other filter reported as "maybe" now reads as "maybe" here. Returns this filter. |
| Bloom.BloomFilter.AlikeSlots | Include/BloomFilter.h:68-72 | Two valid filters built with the same width, K and hash compute the same positions for every item. |
| Bloom.BloomFilter.Apply | Include/BloomFilter.h:48-49 | The same answer as PossiblyContains. |
| WordSets.Index | Include/Trie.h:18 | A letter's child slot is one of the 26. |
| WordSets.Letter | Include/Trie.h:18 | A slot's letter is a letter whose slot is that slot. |
| WordSets.LetterOfIndex | Include/Trie.h:18 | Slot and letter are inverse both ways. |
| TrieNodes.NewNode | Include/Trie.h:14 | A new node has the given parent, letter and flag, and 26 empty child slots. |
| TrieNodes.Frame | Include/Trie.h:17-20 | What the invariant says about a node depends only on that node and its children. |
| TrieNodes.FrameBut | Include/Trie.h:17-20 | The same for the pruning condition with one slot excepted. |
| TrieNodes.RelaxRoot | Include/Trie.h:37 | Starting an insertion at the root keeps every node but the root as it was. |
| TrieNodes.InsertExisting | Include/Trie.h:37 | When the rest of the word is already stored below a node, the next letter's child exists and holds the shorter rest. |
| TrieNodes.InsertDescend | Include/Trie.h:37 | Descending into an existing child keeps the relaxed invariant, with the child as the current node. |
| TrieNodes.InsertGrow | Include/Trie.h:37 | Appending and linking a new node for a missing letter keeps the relaxed invariant, with the new node as the current node. |
| TrieNodes.InsertFinish | Include/Trie.h:37 | Marking the last node of the word finished restores the full invariant. |
| TrieNodes.ContinuesRoot | Include/Trie.h:38-39 | Below the root lie all the stored words. |
| TrieNodes.ContinuesStep | Include/Trie.h:38-39 | Going down one letter, what lies below the child is what continues the longer prefix. |
| TrieNodes.ContinuesNone | Include/Trie.h:38-39 | When nothing below a node starts with a letter, no word continues the prefix with that letter. |
| TrieNodes.ChildWords | Include/Trie.h:17-20 | A child holds exactly the node's words that start with its letter, minus the letter. Without such a child, no word of the node starts with that letter. |
| TrieNodes.WalkMissing | Include/Trie.h:38-39 | A missing child on the way down means no stored word starts with the walked string. |
| TrieNodes.ContinuesSome | Include/Trie.h:39 | A node with words below it has a stored word that continues the walked string. |
| TrieNodes.WalkStart | Include/Trie.h:38-39 | A walk starts at the root, below which lie all the stored words. |
| TrieNodes.WalkStep | Include/Trie.h:38-39 | The child for the next letter extends the path by one node and holds what continues one more letter of the walked string, which is some word. |
| TrieNodes.WalkDone | Include/Trie.h:38-39 | At the end of the string, the node reached holds its continuations and lies at the end of a path of child links from the root. It holds a word unless the string is empty, which leads to the root. |
| TrieNodes.CollectStart | Include/Trie.h:44 | Enumerating a node starts with the empty word exactly when the node is finished. |
| TrieNodes.CollectSlot | Include/Trie.h:44 | After a child's words are listed, every word of the node up to that slot is listed, and every listed string is a word below the node. |
| TrieNodes.CollectSlotCovers | Include/Trie.h:44 | The node's words that start with the slot's letter are the ones listed below the child. |
| TrieNodes.CollectSlotBelow | Include/Trie.h:44 | What is listed below a child continues the prefix with a word of the node. |
| TrieNodes.CollectSkip | Include/Trie.h:44 | No word of a node starts with the letter of an empty slot. |
| TrieNodes.CollectEnd | Include/Trie.h:44 | Once all 26 slots are done, every word below the node is listed. |
| TrieNodes.ListingSlot | Include/Trie.h:44 | The depth-first listing as far as a slot is the listing as far as the slot before, followed by the slot's child's listing (nothing for an empty slot). |
| TrieNodes.AllBelowAppend | Include/Trie.h:44 | Two lists of words below a node concatenate to one. |
| TrieNodes.PathExtend | Include/Trie.h:17-18 | A path of child links grows by the child for the next letter. |
| TrieNodes.PathIncreasing | Include/Trie.h:17-18 | Along a path of child links, positions strictly increase, so no node is visited twice. |
| TrieNodes.RemoveRoot | Include/Trie.h:40 | Starting a removal at the root keeps the invariant relaxed at the root only. |
| TrieNodes.RemoveDescend | Include/Trie.h:40 | Taking the removed word's suffix out of the next node on its path keeps the removal invariant one node further down. |
| TrieNodes.RemoveDescendSpells | Include/Trie.h:40 | That step keeps every other node spelling its words, and the suffix was below the next node. |
| TrieNodes.RemoveDescendPruned | Include/Trie.h:40 | That step lets only the path above the next node keep an empty child. |
| TrieNodes.RemoveFinish | Include/Trie.h:40 | Clearing the last node's flag makes every node spell its words again. |
| TrieNodes.PruneStep | Include/Trie.h:40 | Unlinking a path node that leads to no word keeps the pruning invariant one node higher. |
| TrieNodes.PruneStepSpells | Include/Trie.h:40 | Unlinking a child that leads to no word keeps every node linked and spelling its words. |
| TrieNodes.PruneStepPruned | Include/Trie.h:40 | After that unlinking, only the nodes above the parent may keep an empty child. |
| TrieNodes.PruneAt | Include/Trie.h:17-20 | The current node of the pruning walk satisfies the node invariant. Its parent link and letter lead to the node above it on the path, which sits earlier in the arena. |
| TrieNodes.PruneExit | Include/Trie.h:40 | Stopping at the root, or at a node that still leads to a word, restores the full invariant. |
| TrieNodes.LiftNonempty | Include/Trie.h:40 | Above a node that leads to a word, every node on the path leads to a word. |
| PrefixTree.Trie.constructor | Include/Trie.h:24 | A new trie is a lone root and stores no word. |
| PrefixTree.Trie.Copy | Include/Trie.h:25 | A copy has the same nodes as its source and stores the same words. |
| PrefixTree.Trie.FromList | Include/Trie.h:27 | Stores exactly the listed strings that are words. |
| PrefixTree.Trie.Walk | Include/Trie.h:38-39 | Following a string from the root reaches a node whose words are exactly the stored words' continuations of the string. For a non-empty string, it reaches Nil exactly when no stored word starts with it. The empty string always reaches the root. |
| PrefixTree.Trie.HasWords | Include/Trie.h:39-40 | True exactly when some word ends at or below the node. |
| PrefixTree.Trie.Search | Include/Trie.h:38 | True exactly when the query is a stored word, so a stored word's proper prefix is found only if it was itself inserted. |
| PrefixTree.Trie.StartsWith | Include/Trie.h:39 | True exactly when some stored word has the prefix. |
| PrefixTree.Trie.Apply | Include/Trie.h:55 | The same answer as Search. |
| PrefixTree.Trie.Insert | Include/Trie.h:37 | The words become the old words plus the inserted one (when it is made of letters) and the invariant holds. Inserting a stored word leaves the nodes unchanged. |
| PrefixTree.Trie.Remove | Include/Trie.h:40 | The words become the old words minus the removed one, and the invariant holds, so no linked node leads to no word. Removing a word that is not stored leaves the nodes unchanged. |
| PrefixTree.Trie.Unmark | Include/Trie.h:40 | Takes the word out of every node on its path and clears its last node's flag, leaving the pruning invariant. |
| PrefixTree.Trie.Prune | Include/Trie.h:40 | Walking up the parent links and unlinking dead nodes restores the invariant and leaves the words unchanged. |
| PrefixTree.Trie.Collect | Include/Trie.h:44 | Lists every word below a node after the prefix, and nothing else. The list is the depth-first listing: the node's own word first, then its children's listings from 'a' to 'z'. |
| PrefixTree.Trie.Words | Include/Trie.h:51-54 | Lists exactly the stored words, in the depth-first order from the root. |
| PrefixTree.Trie.UnionWith | Include/Trie.h:52 | `+=`: the words become this trie's plus the other's; returns this trie. |
| PrefixTree.Trie.DifferenceWith | Include/Trie.h:54 | `-=`: the words become this trie's minus the other's; returns this trie. |
| PrefixTree.Trie.Union | Include/Trie.h:51 | `+`: a new trie with the words of both; neither operand changes. |
| PrefixTree.Trie.Difference | Include/Trie.h:53 | `-`: a new trie with this trie's words that the other does not hold; neither operand changes. |
| PrefixTree.Trie.Within | Include/Trie.h:56 | True exactly when every word of this trie is a word of the other. |
| PrefixTree.Trie.Equals | Include/Trie.h:56 | `==`: true exactly when both tries store the same words, whatever their shape. |
| PrefixTree.Trie.NotEquals | Include/Trie.h:57 | `!=`: true exactly when the stored words differ. |
| PrefixTree.InsertThenRemove | Include/Trie.h:37-40 | Inserting a word that was not stored and then removing it gives back the same words. |
| PrefixTree.SearchThenStartsWith | Include/Trie.h:38-39 | Whenever search finds a query, startsWith accepts it too. |
| TrieNodes.SameWordsAt | Include/Trie.h:17-20 | Two word maps that satisfy the invariant over the same nodes agree on every string at every node. |
| TrieNodes.StoredDetermined | Include/Trie.h:17-20 | The word map is a function of the nodes: the invariant leaves only one. |
| PrefixTree.SameNodesSameWords | Include/Trie.h:17-20 | Two valid tries with the same nodes store the same words, so the abstraction depends on the tree alone. |

`Bloom.Scenario`, `Bloom.CombineScenario`, `Bloom.MismatchScenario` and
`PrefixTree.Scenario` are worked examples. The first adds "cat" and "dog" to a filter over a store:
both read as "maybe", and "bird" is never certainly contained. The second
builds alike filters: what one of them added reads as "maybe" in another
after `|`, and after `&` with a third filter that added it too. The third
combines filters that differ only in K, with the outcomes the "## Left out"
line on `Intersect` and `Union` describes. The fourth runs through
"cat"/"car"/"dog": prefix queries, removal, pruning, and the equality of a
copy with its source.

## Left out

- `CDNServer::RAMUsage` is left out because it does floating-point arithmetic on library internals (string capacity and bucket count).
- The file-loading `add` overload and the stream operators `<<` and `>>` of both classes are left out: they are file and stream I/O with no specified layout.
- `std::hash<std::string>` and `std::to_string` are not modelled. The seeded hash is a function `hasher(item, seed)` given to the filter's constructor, and only its determinism is used: a variable of function type is pure.
- The seeds are taken to be 0, 1, ..., K-1, since the header does not say how they are chosen. The constructor states these values, so filters built alike hash alike.
- Copy and move constructors, destructors and assignment operators are left out as memory management, as are the rvalue overloads, which only forward. For the trie, the logical copy is kept (`Trie.Copy`, an arena copies by value).
- The `bfs` and `dfs` visitors are left out: their callbacks receive mutable node pointers and may change the tree arbitrarily. `Collect` lists the words in depth-first order instead.
- Cdn.CDNServer.CheckWord: the usage count is a natural number, so the wrap-around of the `size_t` counter after 2^64 queries is not modelled.
- Bloom.BloomFilter.constructor: a filter needs width > 0 and K ≥ 1. Zero hash functions is a construction error. `std::bitset<0>` is legal C++, but reducing a hash modulo N is undefined when N = 0, so a zero width is not modelled.
- Bloom.BloomFilter.Intersect and Bloom.BloomFilter.Union require filters of the same width, which the C++ template enforces through N. Their "maybe" clauses about the other filter hold where both filters compute the same positions for an item, which is every item for filters built with the same width, K and hash.
- Bloom.BloomFilter.Intersect and Bloom.BloomFilter.Union neither reject nor reconcile filters with different K: the header declares no error path for `&` and `|`, and K is a constructor argument, so `BloomFilter<N> a(3), b(2); a | b` is legal. The bits are still combined, but nothing is promised about items: after `|` an item the other filter added can read as "no", and after `&` an item the other filter rejects can read as "maybe" (`Bloom.MismatchScenario` shows both).
- Bloom.BloomFilter.constructor takes the width, the hash and the CDNServer as arguments, whereas `BloomFilter(unsigned int num_hashes)` takes only K. In C++ the width is the template argument N and the hash is the class's own private function. The header does not say how the server pointer is set, so the model passes it in.
- The trie's nodes live in an arena, not a pointer graph. Pruning unlinks a node from its parent, and the node stays in the arena as unreachable garbage instead of being freed.
- PrefixTree.Trie.Insert builds the new arena in a local copy and stores it in the field when it is done. No other code can observe the states in between.
- PrefixTree.Trie.Insert: a string with a character outside 'a'..'z' is not stored: insert leaves the trie unchanged, and search and startsWith answer false for it. The header leaves this case open. The empty string is a word and marks the root.
- Removing a word that is not stored is a no-op.
- PrefixTree.Trie.StartsWith follows the comment on `startsWith`: true only when some stored word has the prefix. So `StartsWith("")` is false on an empty trie although the root, the node of the empty prefix, exists. The other reading, that a path for the prefix exists, is not modelled.
