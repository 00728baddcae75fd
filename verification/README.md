# A verified model of the MyJQL storage engine

MyJQL stores strings under string keys. `myjql_get`, `myjql_set` and `myjql_del` work on a B+ tree of
record identifiers; records and strings are items of slotted pages; a free-space map says which page has
room for an item; every file is read and written through a pinned page cache of sixteen frames.

This project models all of these layers, each as the code has it, and composes them: the top module runs
the three calls over one index, two tables, four page files for the tables and five page caches. No layer
is replaced by a simpler stand-in when another one is proved on top of it. The main results:

* **Refinement.** Every run of get, set and del gives the answers of a map from strings to strings
  (`MyJql.Run`). From empty files, a get therefore finds the value that its key was last set to, or nothing if
  the key was never set or deleted since (`RunFromEmpty`).
* **The B+ tree.** Search, insertion and deletion keep the tree well formed (equal depth, `DEGREE` to
  `2 * DEGREE` entries in all nodes but the root, sorted rows, subtrees between their separators) and do to
  the contents exactly what they should, for every degree of at least 2 and through all splits, borrowings,
  merges, root growth and root collapse.
* **Conservation.** No index page, no page of a free-space map, no record, no string and no separator copy is
  ever leaked, shared or freed twice.
* **The page cache.** It always agrees with the logical page array, evicts the least recently used unpinned
  page, and fails only when sixteen other pages are pinned; an index of height 14 never gets there, and one
  with fewer than `4 * 3^13` keys is no higher. Writes through a frame that has already been released still
  reach the right page.

## How the model is laid out

| file | what it models |
|---|---|
| `BufferPool.dfy` | page files and the page cache |
| `Bits.dfy`, `Block.dfy` | the packing of item ids into words; the slotted page on its 128 bytes |
| `MapPages.dfy`, `HashMap.dfy` | the pages of the free-space map; the operations on it |
| `Table.dfy` | tables: slotted pages and a free-space map kept in agreement |
| `Cells.dfy`, `Texts.dfy`, `Strings.dfy` | bytes, strings and their order; chains of chunks |
| `Records.dfy` | records; the comparators and handlers given to the B+ tree |
| `Tree.dfy` | B+ trees as values: what splitting, sharing and merging do to order, rows, leaves, pages, separators |
| `Loops.dfy`, `IndexPages.dfy` | the loops that shift entries in index pages; what they do to one or two pages |
| `TreePages.dfy` | trees on pages: what a step of insertion or deletion makes of a tree on the disk |
| `BTree.dfy` | the B+ tree over a page cache, a free list and the comparators and handlers |
| `MyJql.dfy` | get, set and del; runs of them |
| `Seqs.dfy`, `Rids.dfy` | sequences; record identifiers |

A page pointer is the index of a cache frame. A caller that writes through it must know which page the frame
holds at that moment, so that a write through a stale pointer has to be justified. Each class keeps ghost
fields with what it stands for: the logical page array `Disk`, the pin counts `Pins` and the log `Hist` of a
cache; the contents `Bags` of a free-space map and the chains `Lists` of its pages; the live items `Live` of a
table; the live strings `Texts`; the abstract tree `Root`, the free list `Free` and the `Contents` of the
index; the `Map` of the store. A `Ledger` is what an index is charged with: rows, separators with their string
copies, and pages; every step of an insertion or deletion is proved to change tree and ledger alike.

The recursive steps of the tree are stated by `Grew` (a subtree has become one or two subtrees with one more
row, over the same interval, on pages of its own) and by `Shrunk` (a subtree has lost one row and perhaps has
a separator and a child yet to be taken off, which the caller does). Both say what the pages show, that the
ledger has changed by just this, that the leaves are still linked to what comes after them, and that no page
outside of the subtree has changed.

`Capacity(d)` is `2 * d * (d + 1)^13`, the least number of keys in a tree of height 15; that is `4 * 3^13` for
degree 2, the degree with pages of 128 bytes (`include/b_tree.h:8`). The operations on the index ask for its
height, not for the number of its keys: an insertion or deletion pins height + 2 pages at most, a search
height + 1, and the cache has sixteen frames.

## Model

| member | source | states |
|---|---|---|
| BufferPools.BufferPool.GetPage | src/buffer_pool.c:22-66 | the frame returned holds the wanted page; the logical page array and the file length are unchanged; just one pin more; a hit changes neither file nor frames, the first empty frame is taken before any page is evicted, never a pinned one, and the victim, which is written back, is the least recently used of the unpinned ones, so that the page used last stays |
| BufferPools.PinBudget | src/buffer_pool.c:22-66 | one of the return statements is reached if and only if the pinned pages together with the wanted one are at most sixteen |
| BufferPools.BufferPool.EvictLeastRecent | src/buffer_pool.c:50-65 | the last branch writes the victim back before its frame is reused, so the logical page array survives |
| BufferPools.CoherentStep | src/buffer_pool.c:41-42 | writing a frame back and reading another page into it keeps cache and file in agreement, also for a frame that is still empty |
| BufferPools.RecencyStep | src/buffer_pool.c:27-34 | moving an address to the front keeps the lru array a list of the resident pages, each once, by last use, with the unused entries at the end |
| BufferPools.LastEntryUnused | src/buffer_pool.c:44-46 | while a frame is empty the last lru entry is unused, so the shift that drops it loses no page |
| BufferPools.BufferPool.Release | src/buffer_pool.c:68-75 | takes away one pin of the page and changes nothing else |
| BufferPools.BufferPool.Append | src/file_io.c:50-68 | a page written past the cache at the end of the file joins the logical page array, at an address that no frame can hold |
| BufferPools.BufferPool.Close | src/buffer_pool.c:16-20 | afterwards the file is the logical page array; unused frames write nothing |
| ItemIds.FieldsRead | include/block.h:31-33 | the masks and shifts read bit 30, bits 29 to 15 and bits 14 to 0 |
| ItemIds.RoundTrip | include/block.h:35 | the fields composed into a word are those extracted from it, and bit 31 stays 0 |
| ItemIds.Recomposed | include/block.h:21-35 | a word with bit 31 clear is composed of its own fields |
| Blocks.InitBlock | src/block.c:5-9 | a well-formed page without items and without item ids, with room for 118 bytes |
| Blocks.GetItem | src/block.c:11-23 | the place of the bytes of a live item; the null pointer for an index out of range or not in use |
| Blocks.NewItem | src/block.c:25-44 | if the item is at most as long as the free space, it gets the least index that no item has, a new one only if all are taken, and all other items keep their bytes; the items still tile the upper part of the page |
| Blocks.TiledPlaced | src/block.c:29-42 | a new item below the tail leaves no gap and no overlap |
| Blocks.DeleteItem | src/block.c:46-75 | the item goes and all others keep index and bytes, through the byte shift and the rewriting of offsets; the page loses an item id only if it is the last one, and the slots are those with corrected offsets |
| Blocks.ItemsDeleted | src/block.c:53-74 | the items of a page are what shifted bytes and corrected slots say: those before less one |
| Blocks.TiledAfter | src/block.c:58-74 | the slots with corrected offsets tile the page above the new tail |
| Blocks.ShiftBytes | src/block.c:56-57 | the overlapping shift moves the bytes between tail and item up by the size of the item |
| Blocks.CloseIds | src/block.c:58-62 | exactly the items below the deleted one get their offset corrected; neither the header nor a byte after the item ids changes |
| Blocks.ComputeFreeSpace | src/block.c:77-89 | the loop over the item ids computes the free space |
| Blocks.SpaceIsRoom | src/block.c:77-89 | size bytes are at most the free space if and only if the gap has room for them and a new item id, or for them alone and some index is free |
| Blocks.CopyItem | src/table.c:36-39 | the bytes copied one by one through get_item are those of the item |
| MapPages.Extended | src/hash_map.c:36-58 | a block that is new or comes from the free list becomes the last of a bucket; every page is still on exactly one list |
| MapPages.Unlinked | src/hash_map.c:194-198 | a block taken out of a chain goes to the front of the free list; every page is still on exactly one list |
| HashMaps.HashMap.constructor | src/hash_map.c:5-23 | control page and directory of an empty map, all buckets empty |
| HashMaps.HashMap.Insert | src/hash_map.c:29-103 | adds one address to one bucket, behind the entries of the first block with room or else in a new last block, which is the first free page or a new one; no other table changes and all pins are returned |
| HashMaps.HashMap.InsertInChain | src/hash_map.c:59-101 | the walk ends at the first block with room, which alone changes, or adds exactly one block to the end of the chain; it keeps its pages in their frames |
| MapPages.FullBlocksAre | src/hash_map.c:61-95 | the block that an insertion goes to is the one after all the full ones at the front of the chain |
| HashMaps.HashMap.PopLowerBound | src/hash_map.c:105-158 | takes the last entry of the first block of the first bucket from the given size on that is not empty; -1 if and only if all of them are empty; a block that becomes empty becomes the first free one |
| HashMaps.HashMap.Pop | src/hash_map.c:160-212 | takes the first entry with the given address out of its bucket, and its block too if that was the only entry; without such an entry nothing changes |
| HashMaps.HashMap.NextBlock | src/hash_map.c:185-187 | although nothing pins it any more, the frame of the block before still holds that block after get_page on the next one |
| HashMaps.HashMap.Discard | src/hash_map.c:174-198 | the write through that frame unlinks the right block, which goes to the free list |
| HashMaps.HashMap.ChainWalk | src/hash_map.c:59-95 | following next from the directory, or from the free list head, ends, visits the blocks on that list, each with 1 to 14 addresses, and they hold what is in the bucket |
| HashMaps.HashMap.PagesConserved | src/hash_map.c:36-101 | every page past the directory is on one bucket chain or on the free list, at one place |
| Tables.Table.constructor | src/table.c:7-10 | an empty table has no live records |
| Tables.Table.Insert | src/table.c:43-70 | a record identifier that was not live now has the given bytes; nothing else changes; it is the least free index of a block with the least free space that has room, the one that the free-space map has in front, and the first index of a new page if no block has room |
| Tables.TightestTakes | src/table.c:48-62 | the first bucket from the size on that is not empty holds the blocks with room and least free space |
| Tables.NoneTakes | src/table.c:48-58 | if there is no such bucket, no block has room |
| Tables.Table.InsertInto | src/table.c:60-68 | the block found by the free-space map always has room, and is filed again under its new free space |
| Tables.Table.Delete | src/table.c:72-85 | exactly the given record goes; only its block changes, and its slots are those after delete_item |
| Tables.Table.Read | src/table.c:28-41 | reading gives the bytes of the record and changes no record |
| Tables.FiledAgain | src/table.c:79-82 | after a block has changed and come back, every block is in the bucket of its free space, once, and nowhere else |
| Tables.Table.Came | src/table.c:49-64 | an item that has come into one block is one more live record, under an identifier that was not live |
| Tables.Table.Went | src/table.c:78-81 | an item that has gone from one block is one live record less |
| Strings.ChunkRoundTrip | include/str.h:20-23 | the parts of a chunk are read back from a buffer, whatever comes after the chunk in it |
| Strings.StringTable.WriteString | src/str.c:53-104 | a new string of any length, cut into chunks of 20 chars but for the last one; without these chunks, the live records of the table are those before |
| Strings.StringTable.DeleteString | src/str.c:106-113 | exactly this string goes; the table loses exactly the chunks of its chain, and the walk along it ends |
| Strings.StringRemoved | src/str.c:106-113 | without the chunks of one string, every live chunk still belongs to exactly one string, at one place |
| Strings.HasNext | src/str.c:10-19 | true if and only if something is left to be read |
| Strings.StringTable.NextChar | src/str.c:21-28 | the next char, in this chunk or the next, and the record now stands after it |
| Strings.StringTable.LoadString | src/str.c:124-133 | the first max_size chars of the string, or all of it |
| Strings.StringTable.Compare | src/str.c:30-51 | -1, 0 or 1 as the first string is smaller, equal or larger, however they are cut into chunks |
| Texts.TotalOrder | src/str.c:30-51 | the order of the strings is total, asymmetric and transitive |
| Texts.Lexicographic | src/str.c:35-50 | one string is smaller than another if and only if they agree up to some place where the first one ends or has the smaller char |
| Records.RecordRoundTrip | src/myjql.c:10-21 | a record is decoded from the bytes it was encoded to |
| Records.Store.Compare | src/myjql.c:31-47 | the order of the keys behind two identifiers, whether of records or of separators |
| Records.Store.CompareKey | src/myjql.c:49-65 | the order of a string and a key; the temporary string has gone again, and every record, string and chunk is what and where it was |
| Records.Store.InsertHandler | src/myjql.c:67-80 | a new separator string with the same key, or with its first 1024 chars |
| Records.PrefixSeparates | src/myjql.c:78-79 | the copy made of the larger of two keys separates them if and only if the keys differ within their first 1024 chars |
| Records.NotBelowPrefix | src/myjql.c:78-79 | a key is never below the copy made of it |
| Records.LongKeys | src/myjql.c:78-79 | two keys of 1025 chars between which the copy does not separate |
| Records.Store.DeleteHandler | src/myjql.c:82-84 | exactly this separator string goes |
| Trees.Splice | src/b_tree.c:488-494 | neighbours in a node, with the separators between them, may give way to others over the same interval: the tree stays well formed |
| Trees.OnlyBelow | src/b_tree.c:161-180 | a row is below a node if and only if it is below the child at the upper bound of its key |
| Trees.RowsSorted | src/b_tree.c:150-181 | the rows of a well-formed tree are strictly increasing and within its interval |
| Trees.MinRows | src/b_tree.c:418-562 | a well-formed subtree of height h holds at least d * (d + 1)^(h - 1) rows |
| Trees.HeightBound | src/buffer_pool.c:50-66 | fewer than Capacity(d) rows make a tree of height 14 at most |
| Trees.LeafSplits | src/b_tree.c:200-234 | the two halves of a full leaf with one more row are well formed, linked, and separated by a copy of the first key on the right |
| Trees.NodeSplits | src/b_tree.c:289-403 | the two halves of a node with one child too many are well formed around its middle separator, which goes up |
| Trees.LeavesMerge | src/b_tree.c:443-449 | two leaves become one, well formed and linked to the leaf after them |
| Trees.NodesMerge | src/b_tree.c:515-525 | two nodes become one, with a copy of the separator between them |
| IndexPages.SplitLeaf | src/b_tree.c:202-230 | two pages share the rows of a full leaf and the new row, in order, for both cases of the index |
| IndexPages.SplitSeps | src/b_tree.c:300-345 | lower and upper separators and the one that goes up are those of the node with the new one inserted, for all three cases of the index |
| IndexPages.SplitKids | src/b_tree.c:309-345 | and likewise the children |
| IndexPages.LeafBorrowRight | src/b_tree.c:430-437 | the child loses its row and gains the first one of the sibling |
| IndexPages.LeafMergeLeft | src/b_tree.c:455-470 | the sibling gains the rows of the child but the deleted one, and its next |
| IndexPages.NodeBorrowLeft | src/b_tree.c:531-543 | a separator goes up from the sibling, the one between the two comes down, and a child moves over |
| IndexPages.NodeMergeRight | src/b_tree.c:516-523 | the child gains a separator and all entries of its right sibling |
| BTrees.BTree.constructor | src/b_tree.c:6-27 | a control page and an empty root leaf: an index without contents |
| BTrees.BTree.FindIndex | src/b_tree.c:564-575 | the upper bound of the key in the page; one of the return statements is reached |
| BTrees.BTree.SearchIndex | src/b_tree.c:161-180 | the child that tree_search chooses is at this same upper bound; one of the branches is reached |
| BTrees.BTree.TreeSearch | src/b_tree.c:150-181 | finds the row with the key below a node, or the null identifier if and only if there is none; pins and pages are as before |
| BTrees.BTree.Search | src/b_tree.c:33-43 | the identifier stored for the key, or the null identifier if and only if the key is absent, in an index of height 15 at most; every record, string and chunk is what and where it was |
| BTrees.BTree.SplitFullLeaf | src/b_tree.c:200-268 | a full leaf becomes two leaves with the new row among theirs, on a page from the file end or the free list |
| BTrees.BTree.SplitFullNode | src/b_tree.c:289-403 | a full node becomes two nodes over the same interval |
| BTrees.BTree.TreeInsert | src/b_tree.c:183-407 | the subtree has become one or two well-formed subtrees with exactly one row more; the new entry returned is the one to put between them |
| BTrees.BTree.Insert | src/b_tree.c:45-98 | in an index of height 14 at most, the contents gain exactly the new key; the index is valid again; its height changes, by one, only through a new root with two children |
| BTrees.BTree.AddPage | src/b_tree.c:61-93 | the new page is the end of the file or the first free page; no page in use changes |
| BTrees.BTree.SlotOf | src/b_tree.c:498 | searching the parent for the first key of a child, even of one that is one entry short, finds the slot of this child |
| BTrees.BTree.DeleteFromLeaf | src/b_tree.c:418-477 | a leaf loses exactly the given row, alone or with a sibling, in all five cases; the right sibling is used if there is one, and the children beside the pair stay |
| BTrees.BTree.Rebalance | src/b_tree.c:497-559 | a node one entry short is put right by its sibling, in all four cases, by the right one if there is one; the children beside the pair stay |
| BTrees.BTree.TreeDelete | src/b_tree.c:409-562 | the subtree below the parent has lost exactly the given row; the separator returned is the one that the caller has to take off; of the parent only the child and its right neighbour, or else its left one, have changed |
| BTrees.BTree.SettleRoot | src/b_tree.c:124-143 | the root loses the separator left over, or gives way to its only child |
| BTrees.BTree.Delete | src/b_tree.c:100-148 | in an index of height 14 at most, the contents lose exactly the given key; the index is valid again; its height shrinks by at most one |
| BTrees.BTree.Low | src/buffer_pool.c:50-66 | an index with fewer than Capacity(d) keys has height 14 at most, so that every operation finds the frames it needs |
| BTrees.BTree.LeafChain | src/b_tree.c:229-230 | going down to the leftmost leaf and along next, one finds exactly the stored rows, by strictly increasing keys |
| BTrees.BTree.PagesConserved | src/b_tree.c:442-449 | every page of the file is the control page, a node of the tree, once, or on the free list, once |
| BTrees.BTree.SeparatorsOwned | src/b_tree.c:515-525 | every live separator string belongs to exactly one separator in the tree, with the same key, and the other way round |
| TreePages.LeftmostLeaf | src/b_tree.c:162-163 | following the first child from the root leads to the first leaf of the tree |
| TreePages.WalkLeaves | src/b_tree.c:446-449 | following next from there visits the rows of all leaves in order, and then ends |
| MyJqls.MyJql.constructor | src/myjql.c:86-90 | on empty files: the empty map |
| MyJqls.MyJql.Get | src/myjql.c:103-114 | the first max_size chars of the value of the key, or -1 if and only if the key is not in the map; every record, string and chunk is what and where it was |
| MyJqls.MyJql.Set | src/myjql.c:116-135 | the map has the key with the new value and is otherwise unchanged; a present key keeps its string, with a new record and a new value string in place of the old ones, and all other records and strings stay; the index is one level higher at most |
| MyJqls.MyJql.Replace | src/myjql.c:126-134 | the key string lives on with a new record and a new value string while the old record and the old value string go, and nothing else |
| MyJqls.MyJql.Del | src/myjql.c:137-148 | the map has lost the key, if it was there, and is otherwise unchanged; its record and both strings have gone, and no other |
| MyJqls.MyJql.Run | src/myjql.c:103-148 | any run of calls leads to the map, and gives the answers, that the same run on a map gives |
| MyJqls.RunFromEmpty | src/myjql.c:86-148 | every answer of a run on empty files: a get finds the first max_size chars of what its key was last set to by the calls before, or nothing if it was never set or deleted since |
| MyJqls.AnswerAt | src/myjql.c:103-114 | the same of the runs of a map that is empty at first |
| MyJqls.LastWriteWins | src/myjql.c:103-148 | after a run, a key has the value it was last set to, or none if it was deleted since or never set |
| MyJqls.BearableRun | src/myjql.c:116-135 | runs with short keys meet the requirements of Run at every step if keys and set operations are fewer than the capacity, or height and set operations at most 14 |
| MyJqls.Degree | include/b_tree.h:8 | the degree with pages of 128 bytes is 2, and the capacity 4 * 3^13 |
| MyJqls.RecordAdded | src/myjql.c:121-123 | a record of two new strings under a new key: the records still represent the map, and every string has one owner |
| MyJqls.RecordRemoved | src/myjql.c:144-147 | the same without a record and both of its strings |
| MyJqls.MyJql.Accounted | src/myjql.c:116-148 | the live records are those in the index; the live strings are the keys and values of these records and the separators of the index, nothing else |

## Where the code and its comments differ

* `b_tree_init` clears the index of the first row only (`src/b_tree.c:22`); the others are zero already because
  the page is. All rows of the model start as the null identifier.
* `include/hash_map.h:39` rules out duplicate addresses. The code does not rely on it: the model is a multiset
  for each bucket. The tables never insert a duplicate.
* `load_string` returns how many chars it has loaded; `myjql_get` returns this or -1, converted to an unsigned
  type. The model returns the number or -1.

## Left out

- MyJqls.MyJql.Set: keys have at most 1024 chars, because `insert_handler` copies no more than that into a separator (`src/myjql.c:69-79`), which then may no longer separate (`LongKeys`); values and the keys of get and del have any length. The server refuses longer keys (`main/myjqlserver.c:269`).
- MyJqls.MyJql.Run: every step starts with fewer than `Capacity(d)` keys or on an index that was low enough in the beginning for the calls of set since, because `get_page` has no return statement for the case that sixteen pages are pinned (`src/buffer_pool.c:50-66`). Single calls only ask for the height of the index at that time.
- Strings.ChunkRoundTrip: the ten bytes of the identifier in a chunk are parts of that identifier, not an encoding of its address and index.
- Records.RecordRoundTrip: the same of the two identifiers in a record.
- BTrees.BTree.Delete: the key is present, as its callers make sure: the code removes the row before the upper bound without looking at it (`src/b_tree.c:115`, `src/b_tree.c:420`).
- BTrees.BTree.Insert: the key is absent, as its caller makes sure.
- HashMaps.HashMap.Pop: the bucket is not empty, as its caller makes sure; the code would ask for the page at -1 otherwise.
- HashMaps.HashMap.Insert: addresses are not negative, as all addresses of pages are; -1 means none.
- Blocks.NewItem: items are not empty. All items of the engine have at least twelve bytes.
- Blocks.DeleteItem: the index is that of a live item, as `include/block.h:47` demands.
- Tables.Table.Insert: items of at most 118 bytes, which is what a page has room for (`include/table.h:25`).
- The width of `off_t`: addresses are unbounded integers. The ten bytes of a record identifier are kept as ten parts of that identifier, so the split of an address into bytes is not modelled; all other bytes are bytes.
- The pages of the index and of the free-space map are typed values, not raw bytes; the casts between the two are not modelled. Slotted pages and the item ids in them are on bytes.
- The shifting loops run in place, on an array that is loaded from a page and put back into its frame; that a pointer into a page sees each single step is not modelled.
- What is in the unused entries of an index page, which no code reads.
- The page that is about to be appended is a local variable of the code and a value here; allocation from the file end and from the free list is one step with two branches, where the code repeats the split for each.
- Records.PrefixSeparates: what a tree with keys of more than 1024 chars looks like is not modelled, only when a single cut-off separator is still one.
- Opening files that already exist, and closing all five caches: the state after `BufferPool.Close` is that of the files, and opening it again is not modelled.
- Errors of the file functions, and what a crash would leave on the disk.
- Printing, statistics and the disabled checking code.
- The drivers, the server, its sockets, threads and the lock that lets in one call at a time.
