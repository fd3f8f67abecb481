# Skip list (`skiplist.h`) in Dafny

This project models the generic skip list engine of `skiplist.h`, an ordered
key-to-value index built from multi-level forward-linked nodes, and proves
its operations correct against an abstract map.

- **Nodes.** The nodes live in an arena: `nodes: seq<Node>`, with the
  sentinel header `m_header` at index 0 and each node's `m_forward` held as a
  sequence of optional node indices.
- **Ghost state.** Linked lists become index chains. Class `SkipList` keeps
  ghost `chains[j]`, the node indices on level j from the header on. It also
  keeps ghost `contents`, the map the list stands for.
- **Invariant (`Inv`).**
  - every level is a chain linked through its own forward slots, with keys
    strictly ascending;
  - the tower property holds;
  - `level <= maxLevel`, and the levels above `level` hold only the header;
  - `count` is the length of the level-0 chain less the header;
  - level 0 holds exactly the entries of `contents`.
- **Operations.**
  - The constructor, `size`, `get_random_level`, `search_element`,
    `insert_element` and `delete_element` are methods of `SkipList`.
  - The descent loop, the raise of the level, the splice loop, the unlink
    loop and the shrink loop of the source are written as loops over the
    arena.
  - Each method's contract gives its effect on `contents`, `count`, `level`
    and the chains.
- **Randomness.** `rand() % 2` becomes a caller-supplied sequence of coin
  outcomes `coins`. `get_random_level` counts the leading `true`s and caps
  the count at `maxLevel`.
- **Persistence.** This is modelled for string keys and values. `dump_file`
  produces the text it would write, and `load_file` consumes a text line by
  line as `getline` does. Module `Persistence` proves that dumping then
  loading into an empty list gives back the same map, whenever keys and
  values can pass through the `key:value` line format.
- **Demo.** Module `Demo` replays the driver `main.cpp`.

Files:

- `order.dfy`: the strict total order asked of `operator<`, with its int
  and string instances.
- `arena.dfy`: nodes, the arena, chains, and the linking lemmas.
- `skiplist.dfy`: the invariant, its lemmas, and class `SkipList`.
- `persistence.dfy`: line parsing, dump, load, and the round trip.
- `demo.dfy`: the `main.cpp` sequence.

Two facts about `skiplist.h` fix the persistence model:

- `load_file` passes `std::string` key and value to `insert_element`
  (skiplist.h:189-195), so it can only be instantiated when K and V accept a
  `std::string`; persistence is modelled for K = V = string.
- `load_file` also skips a line whose key or value comes out empty (`:x`,
  `x:`; skiplist.h:193).

The methods carry the invariant as `Sealed(s, less)`, and `AllLinked` as
`Linkage`: each is the invariant guarded by `Unfold(n)`, a predicate that is
always `true`, so `Sealed(s, less) <==> Shape(s) && Inv(s, less)`. The guard
keeps the solver from unfolding the whole invariant at every step of a
method; lemmas `Unseal`/`Seal` and `OpenLinkage` open and close it where a
proof asks for it.

## Model

| member | source | states |
|---|---|---|
| Order.IntLessIsStrictTotalOrder | main.cpp:5 | `<` on the `int` keys of the driver is a strict total order |
| Order.StringLessIsStrictTotalOrder | skiplist.h:189-195 | lexicographic `<` on the `std::string` keys of the persistence path is irreflexive, transitive and total |
| Arena.NewNode | skiplist.h:37-39 | a node built with level L carries its key, value and level, and exactly L+1 forward slots, all empty |
| Arena.SpliceMembers | skiplist.h:137-142 | after splicing n into a chain, the chain holds its old nodes and n, nothing else |
| Arena.UnlinkMembers | skiplist.h:247-250 | after unlinking the successor of position p from a chain of distinct nodes, the chain holds its old nodes except that successor |
| Arena.KeysDistinct | skiplist.h:120-125 | on a well-formed level, distinct positions after the header carry distinct keys (keys are unique) |
| Arena.PredPosition | skiplist.h:114-121 | where the descent stops on a level, the node with the sought key, if it is on that level, is the very next one |
| Arena.PredSplits | skiplist.h:114-118 | when the key is absent, every key up to the stopping node is below it and every key after it is above it |
| Arena.SpliceStep | skiplist.h:138-142 | the two slot writes of one splice iteration (`node->m_forward[i] = update[i]->m_forward[i]`, then `update[i]->m_forward[i] = node`) keep every level linked, with level i now the chain with the new node right after `update[i]` |
| Arena.UnlinkStep | skiplist.h:247-250 | the slot write of one unlink iteration keeps every level linked, with level i now the chain without the node after `update[i]` |
| Arena.SpliceAscending | skiplist.h:137-142 | splicing a key strictly between its neighbours keeps the level's keys strictly ascending |
| Arena.UnlinkAscending | skiplist.h:247-250 | unlinking a node keeps the level's keys strictly ascending |
| SkipLists.LeadingTrues | skiplist.h:285-289 | the counter of `while (rand() % 2) k++;` is the number of leading true outcomes: all of them are true, and the next one, if any, is false |
| SkipLists.Locate | skiplist.h:120-121 | after the descent, the key is in the map exactly when the level-0 successor of the stopping node carries it |
| SkipLists.TowerDown | skiplist.h:112-119 | the node the descent has reached on level i is also on level i-1, so the descent continues from it |
| SkipLists.EntriesAbstract | skiplist.h:171-178 | the level-0 chain walked by `dump_file` gives the map's entries in strictly ascending key order, each key once, and every key of the map among them |
| SkipLists.InsertAbstracts | skiplist.h:137-142 | splicing a node with an absent key k and value v into level 0 makes level 0 stand for the map plus k↦v |
| SkipLists.InsertInv | skiplist.h:128-146 | after the raise, the splice on levels 0..r and the count increment, the invariant holds again with level max(level, r); each level gains the new node exactly on levels 0..r |
| SkipLists.DeleteTarget | skiplist.h:244-249 | the found node is not the header, its level is at most the list's level, and on each of its levels it is the successor of `update[i]` |
| SkipLists.TargetUnique | skiplist.h:244-249 | the found node is the only node on any level that carries the deleted key |
| SkipLists.DeleteAbstracts | skiplist.h:247-250 | unlinking the node with key k from level 0 makes level 0 stand for the map without k |
| SkipLists.DeleteInv | skiplist.h:244-255 | after the unlink, the shrink and the count decrement, the invariant holds again and the map loses exactly k; each level loses exactly the nodes carrying k |
| SkipLists.SkipList.constructor | skiplist.h:79-83 | a new list has level 0, count 0, an empty map and a header of level `maxLevel` with `maxLevel + 1` empty slots, and is valid |
| SkipLists.SkipList.Size | skiplist.h:60 | `size()` is the number of keys in the map |
| SkipLists.SkipList.GetRandomLevel | skiplist.h:283-292 | the drawn level is the number of leading true coins, capped at `maxLevel`, so it lies in 0..maxLevel |
| SkipLists.SkipList.Descend | skiplist.h:112-119 | on every level 0..level, update[i] is the last node with key below k, or the header |
| SkipLists.SkipList.Search | skiplist.h:260-280 | `search_element` is true exactly when the key is in the map, and changes nothing |
| SkipLists.SkipList.Insert | skiplist.h:106-147 | a present key gives 1 and no change at all, so no overwrite; an absent key gives 0, the map gains exactly k↦v, count rises by 1, the level becomes max(level, drawn level), and the new node is on exactly levels 0..drawn level |
| SkipLists.SkipList.AddNode | skiplist.h:126-145 | the not-found branch: the list stays valid, the map gains k↦v, count rises by 1, and the new node of level r joins exactly levels 0..r |
| SkipLists.SkipList.RaiseLevel | skiplist.h:129-136 | the level becomes max(level, r), and afterwards update[i] is the last node with key below k (the header if none) on every level 0..r, the new levels included |
| SkipLists.SkipList.SpliceIn | skiplist.h:137-142 | the new node is placed right after `update[i]` on each level 0..r, and the resulting state satisfies the invariant for the enlarged map |
| SkipLists.SkipList.Delete | skiplist.h:231-257 | the map loses k; an absent key changes nothing (no slot, count or level); a present key drops count by 1, never raises the level, and leaves each level without the node carrying k |
| SkipLists.SkipList.RemoveNode | skiplist.h:245-256 | the found branch: the key was present, the map loses exactly it, count drops by 1, and the level does not rise |
| SkipLists.SkipList.UnlinkNode | skiplist.h:247-250 | on each level of the found node, from its own down to 0, it is taken out right after `update[i]`; the other levels are unchanged |
| SkipLists.SkipList.ShrinkLevel | skiplist.h:252-253 | the level never rises and stops at 0 or at a level where the header has a successor; all levels above it hold only the header |
| Persistence.Find | skiplist.h:210 | `find(':')` is the first position of the delimiter, or the length standing for `npos` |
| Persistence.IsValidString | skiplist.h:216-228 | a line is valid exactly when it is non-empty and contains `:` |
| Persistence.GetKeyValueFromString | skiplist.h:202-213 | an invalid line gives an empty key and value; a valid one is the key, then `:`, then the value, with no `:` in the key |
| Persistence.ParseLine | skiplist.h:210-212 | a line written as key, `:`, value, with no `:` in the key, parses back to that key and value |
| Persistence.Lines | skiplist.h:190 | the lines `getline` yields hold no newline |
| Persistence.DumpTextAppend | skiplist.h:173-178 | each loop step of `dump_file` appends exactly one `key:value\n` line |
| Persistence.LinesOfDump | skiplist.h:175 | with no newline in keys or values, reading the dumped text line by line gives back each entry's `key:value` line, one per entry |
| Persistence.DumpFile | skiplist.h:167-182 | `dump_file` writes the entries of the level-0 chain in chain order, one `key:value` line each, and changes nothing |
| Persistence.LoadKeeps | skiplist.h:192-195 | loading never removes a key and never overwrites a stored value |
| Persistence.LoadAdds | skiplist.h:192-195 | every key loading adds comes from a line whose key and value are both non-empty |
| Persistence.LoadLines | skiplist.h:190-197 | loading the lines of distinct storable entries whose keys are new adds exactly those entries |
| Persistence.LoadFile | skiplist.h:185-199 | `load_file` keeps the list valid and leaves the map the fold over the lines: skip a line with an empty key or value, insert the rest in order without overwrite |
| Persistence.LoadDump | skiplist.h:171-197 | the dumped text of distinct storable entries loads, into an empty map, exactly the map those entries make up |
| Persistence.DumpThenLoad | skiplist.h:167-199 | for a valid list whose keys are non-empty without `:` or newline and whose values are non-empty without newline, loading the dump into an empty map gives back the list's map |
| Persistence.DumpAndReload | skiplist.h:167-199 | `dump_file` followed by `load_file` into a new list: the new list is valid and holds the same map |
| Persistence.LoadStorable | skiplist.h:188-195 | every entry `load_file` puts into a map of storable entries is storable: a non-empty key without `:` or newline, a non-empty value without newline |
| Persistence.LoadDumpLoad | skiplist.h:167-199 | for a `SkipList<std::string, std::string>` ordered by lexicographic `<`: `load_file` of any text, then `dump_file` and `load_file` into another new list, give two valid lists holding the map the text's lines fold to |
| Demo.FirstFive | main.cpp:5-14 | the first five insertions of new keys each return 0 and build the map {1, 3, 7, 8, 9} with their values |
| Demo.MainScenario | main.cpp:5-21 | for any coin outcomes, the second insertion of 19 returns 1, the size is then 6, and 19 keeps the value "zzzz" |

## Left out

- File and console I/O are not modelled: the `std::ofstream`/`std::ifstream` handling, `STORE_FILE`, flush and close, and the destructor. Dump produces a text and load consumes one.
- `display_list` and the printing in `dump_file` and `search_element` are left out, because they only write to `std::cout`.
- The `std::mutex` and `unique_lock` are left out. Each operation is one atomic sequential step.
- `rand()` is a foreign, nondeterministic call. Its successive `rand() % 2` outcomes are a caller-supplied `seq<bool>`, and `load_file` takes one such sequence per line.
- `shared_ptr` ownership is left out. A deleted node stays in the arena, unreachable from the header, and is never reclaimed. `create_node` is the append of a `NewNode` to the arena.
- `m_maxLevel` is a `nat`, so the undefined behaviour of a negative `max_level` passed to the constructor is not modelled.
- The header's key and value (`K()`, `V()`) are arbitrary values of their types. No operation reads them.
- The stress test `stress_test.cpp` is not part of this model, because it is a threaded timing harness.
- Persistence.DumpThenLoad: proved only when keys are non-empty without `:` or newline and values are non-empty without newline. Other lists do not survive the line format: such a key is cut at its first `:`, and a line holding an empty key or value is skipped.
- `m_elementCount` (skiplist.h:73) and the level counter `k` of `get_random_level` (skiplist.h:285) are C++ `int`s; the model makes them unbounded `nat`s, so overflow past `INT_MAX` is not modelled.
- `std::string` bytes become Dafny `string` characters. Only `:`, `\n` and the lexicographic order on characters are used, so no encoding is modelled.
