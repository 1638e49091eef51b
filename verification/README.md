# Verified models of DKapture's user-space algorithms

DKapture is a collection of eBPF observers and filters. Most of its user-space code loads
programs and prints columns, but several files contain real algorithms: the namespace forest
and its JSON output in `lsns`, kernel symbol tables and reports in `kmemleak` and
`spinlock_ob`, record-stream decoders in `lsock` and `lscgroup`, the control plane of
`net-limit` and `net-filter`, and the file-protection policy of `frtp`. This project models
those algorithms in Dafny and proves what they are meant to guarantee, for every input, every
run and every failure of the calls they make.

`dafny verify dfyconfig.toml` checks everything.

| file | what it models |
|---|---|
| `NsForest.dfy`, `NsOrphans.dfy`, `NsTable.dfy` | the forest of representative processes, its orphan subtrees, the tree drawing and text mode of `lsns` |
| `Json.dfy`, `NsEmit.dfy`, `NsJson.dfy` | JSON text (RFC 8259), what JSON mode emits, and the document it prints |
| `Lsns.dfy` | both modes of `lsns` from end to end |
| `Ksyms.dfy` | the kernel symbol table and the linear scan it must agree with |
| `LeakReport.dfy`, `StackStats.dfy`, `Heap.dfy` | the two reports built from BPF maps, with the memory they take and give back |
| `RingBuf.dfy`, `CgroupLog.dfy`, `Bytes.dfy` | the two record-stream decoders |
| `Shell.dfy`, `Shaping.dfy`, `MountInfo.dfy` | shell quoting, HTB shaping and mountinfo parsing of `net-limit` |
| `BpfMaps.dfy`, `RuleMaps.dfy` | BPF hash maps and the loops that delete while they traverse |
| `Policy.dfy` | the policy of `frtp` |
| `Seqs.dfy`, `Basics.dfy` | sorting, permutations, sequences; options and machine words |

Functions of the source that update things in place are classes and methods with loops here,
each proved against a function of its inputs; what the source promises is then proved about
those functions. `std::sort` and `qsort` are `Seqs.Sort`: some sorted permutation, nothing is
assumed about ties. A BPF hash map is a sequence of distinct keys in iteration order with a
value for each. What the outside world answers (memory, `tc`, lookups and updates of maps,
`/proc`, `stat`) is a parameter, and each theorem says which of those answers it is for.

## Properties that hold only under a condition

For these the code does not always do what one would expect. Each has its exact condition, or a
concrete run that fails next to the theorem.

- A traversal that starts at key 0 sees every key exactly when 0 is not a key
  (`BpfMaps.TraversalComplete`); this concerns `kmemleak`, `spinlock_ob` and `dump_rules`.
- `clear_rules` empties the map unless key 0 is its last key, and then changes nothing
  (`RuleMaps.RuleTable.ClearRules`); when the first id is positive and the id counter does not
  wrap this never happens (`RuleMaps.ClearAlwaysEmpties`).
- The remaining size of `process_ring_buf` cannot wrap exactly when the buffer's size is a
  multiple of eight or less than one header (`RingBuf.OverrunIffMisaligned`). That does not keep
  it inside the buffer: a Unix record with a path length in -136..-1 passes the size test and has
  its path scanned up to an end that lies before the start, so past the buffer, aligned or not
  (`RingBuf.AlignedScansPast`). Only sizes below one header are safe for every content
  (`RingBuf.AlwaysInsideIffShort`); for a given buffer, it happens exactly when such a record is
  met (`RingBuf.UndefinedExact`).
- `get_cgroup2_mount` splits at vertical tab, form feed and carriage return, which the kernel does
  not escape. A cgroup2 line whose root field is one piece is answered with its mount point exactly
  when that has none of the three; a root in several pieces puts its second piece into the answer
  instead; such characters at either end of the root do no harm (`MountInfo.AnswerExact`,
  `MountInfo.RightAnswer`, `MountInfo.OnePiece`, with `MountInfo.WrongRoot` at a failing root).
- A `shape del` keeps the rules sound exactly when no remaining rule needs the class it deletes
  (`Shaping.SafeIff`). Class ids are 16 bits of a 64-bit cgroup id, and the class is deleted even
  if the rule could not be: because the map did not open, or because it refused
  (`Shaping.CollisionDangles`).
- Unless a lookup or an allocation fails, `print_outstanding_allocs` stays inside its array exactly
  when there are at most 1000000 stacks with accepted entries (`LeakReport.Report.Print`).
- The binary search and the linear scan agree on the address; on the name exactly when the first
  listed symbol at that address has the greatest name (`Ksyms.SameName`).
- A line of an `frtp` policy for the root directory gives rules exactly when the root is written
  with two slashes or more (`Policy.RootCovered`): `/*` becomes the empty path and `/` is not a
  regular file (`Policy.PlainRootFails`), while `//` and `//*` cover the whole tree.
- Every protected directory is found again from its target exactly when no two listed paths
  share a target (`Policy.PathsResolve`).

## Model

| member | source | states |
|---|---|---|
| `NsForest.SiblingOrderIsTotal` | observe/lsns.cpp:889-898 | The comparator of children and roots (inum, then tgid) is a strict total order, so sorting has one result. |
| `NsForest.SiblingsInOrder` | observe/lsns.cpp:889-898 | In every child list a smaller inum comes first, and of equal ones the smaller tgid. |
| `NsForest.LinkParents` | observe/lsns.cpp:808-842 | For any order of the hash table and any raw parents: the parent map, the child lists and the roots are exact; the lists are inverse to the parents. |
| `NsForest.SortLists` | observe/lsns.cpp:883-900 | Sorting keeps the lists inverse to the parents and puts each in order. |
| `NsForest.BuildForest` | observe/lsns.cpp:807-900 | The forest, its roots and its orphan roots are functions of the inums and raw parents alone; every orphan root is a root. |
| `NsForest.ForestUnique` | observe/lsns.cpp:808-842 | Two sorted forests over the same parents are equal, whatever order the tables were iterated in. |
| `NsForest.PathUnique` | observe/lsns.cpp:808-842 | A representative has at most one path from a root, cyclic parents included. |
| `NsForest.PathBounded` | observe/lsns.cpp:904-923 | A path from a root repeats no node, so the recursion is at most as deep as there are representatives. |
| `NsForest.LastIsLast` | observe/lsns.cpp:915-918 | The is-last bit of the loop is the bit of the child in its parent's list. |
| `NsForest.VisitsBelow` | observe/lsns.cpp:906-923 | The recursion visits exactly the paths properly below its start. |
| `NsForest.VisitsOnce` | observe/lsns.cpp:906-923 | It visits none of them twice. |
| `NsForest.DrawSpells` | observe/lsns.cpp:915-922 | Every prefix written spells the is-last bits along the path below the start. |
| `NsForest.PrefixShape` | observe/lsns.cpp:917-921 | At depth d a prefix is 3(d-1)+2 wide: for each proper ancestor three blanks or a bar and two blanks by its is-last bit, then the corner or tee of the node itself. |
| `NsForest.DrawAllExact` | observe/lsns.cpp:925-944 | Run from all roots, each non-root reachable from a root gets a prefix exactly once, with the right text, and nothing else does. |
| `NsForest.PrefixesUnique` | observe/lsns.cpp:883-944 | The prefix map is determined by the forest, hence independent of every hash-table order. |
| `NsForest.PrefixMap.BuildPrefix` | observe/lsns.cpp:906-923 | The recursive drawing ends for every forest and appends exactly the drawn lines. |
| `NsForest.PrefixMap.BuildAll` | observe/lsns.cpp:925-944 | The map after all roots is the exact prefix map and no entry was written twice. |
| `NsOrphans.OrphanSet.Collect` | observe/lsns.cpp:860-876 | Terminates on cycles; adds only what is reachable from its start and leaves everything finished closed under children. |
| `NsOrphans.OrphanSet.CollectAll` | observe/lsns.cpp:857-880 | The set is exactly what orphan roots reach, and is closed under children. |
| `NsOrphans.OrphansHang` | observe/lsns.cpp:844-880 | A representative is in the set exactly when its unique path starts at an orphan root. |
| `NsTable.CollectReps` | observe/lsns.cpp:778-805 | The representatives are exactly the non-zero tgids that have a header. |
| `NsTable.RepInumLast` | observe/lsns.cpp:778-783 | The number of a representative is that of the last header it stands for. |
| `NsTable.HeadersOfExact` | observe/lsns.cpp:796-805 | The headers listed for a representative are its headers in table order, as often as the table has them. |
| `NsTable.BuildTable` | observe/lsns.cpp:778-900 | The table is consistent, its orphan set exact, and both are functions of headers and raw parents. |
| `NsTable.NodeHasHeader` | observe/lsns.cpp:796-805 | Every node of the forest has a header, so no row falls back to the bare process. |
| `NsTable.SplitCovers` | observe/lsns.cpp:951-958 | The split into plain and orphan headers loses and duplicates nothing. |
| `NsTable.SplitInOrder` | observe/lsns.cpp:951-958 | Both parts keep the order of the table. |
| `NsTable.OrphanIsBelow` | observe/lsns.cpp:954-958 | A header is put off exactly when its representative is on a walk from a root whose parent is alive but no representative. |
| `NsTable.PrefixIsRight` | observe/lsns.cpp:964-968 | What stands in front of a command is the drawing of its representative's walk from the root, and nothing for roots and nodes on no walk. |
| `NsTable.EveryHeaderPrinted` | observe/lsns.cpp:946-1003 | The header rows of text mode are a permutation of the headers. |
| `NsTable.RepHeaderLast` | observe/lsns.cpp:787-795 | The header looked up for a representative is the last one it stands for. |
| `NsTable.RowsBelow` | observe/lsns.cpp:1013-1068 | The rows below an orphan are its walks in order, each with its last header and its drawing from the orphan on; every one has a header, so the two fallback rows never are printed. |
| `NsTable.TextPrinter.PrintOrphanNode` | observe/lsns.cpp:1013-1068 | Printing below an orphan terminates and prints exactly the drawn subtree, each node as the row of its header. |
| `NsTable.TextPrinter.PrintOrphan` | observe/lsns.cpp:986-1074 | An orphan header's block is its row, with the prefix of the given map, and the drawing of the tree below it. |
| `NsTable.TextPrinter.PrintTable` | observe/lsns.cpp:946-1074 | For any prefix map: plain rows, then orphan blocks sorted by inum, all headers covered. |
| `Lsns.TextMode` | observe/lsns.cpp:778-1075 | The whole of text mode, for all hash-table orders: every header once with the drawing of its own walk, those below no orphan first in table order, then the others by inum, each with the rows of the walks below it. |
| `Lsns.JsonMode` | observe/lsns.cpp:778-1267 | The whole of JSON mode, for all hash-table orders: a document whose values say every field of every namespace once, nested exactly where a header of the parent came before, in table and sibling order. |
| `Json.JsonEscape` | observe/lsns.cpp:1080-1117 | The loop computes the escaping that the two lemmas below are about. |
| `Json.EscapeRoundTrip` | observe/lsns.cpp:1080-1117 | Reading an escaped string up to its quote (section 7 of RFC 8259) gives the string back, whatever follows. |
| `Json.EscapeClean` | observe/lsns.cpp:1080-1117 | Escaped text is a string body of section 7 of RFC 8259: no raw quote, no lone backslash, no control character. |
| `Json.EscapeCleanAt` | observe/lsns.cpp:1080-1117 | At every position of it: no control character, and no quote without a backslash in front. |
| `NsEmit.KeyInjective` | observe/lsns.cpp:1127-1128 | The printed-set key determines type and inum. |
| `NsEmit.EmitOnce` | observe/lsns.cpp:1125-1216 | From any set of printed keys, emission adds exactly the keys it emits, each once, and covers its input. |
| `NsEmit.DistinctIffKeysOnce` | observe/lsns.cpp:1127-1133 | Headers have distinct keys exactly when they have distinct (type, inum). |
| `NsEmit.ExactlyOnce` | observe/lsns.cpp:1122-1256 | Over the whole nested output every (type, inum) of the headers occurs exactly once; with distinct (type, inum) the output is a permutation of the headers. |
| `NsEmit.EmitNested` | observe/lsns.cpp:1177-1212 | A nested header always sits under one whose representative is its representative's parent. |
| `NsEmit.NestsWhatItCan` | observe/lsns.cpp:1125-1232 | No header of an object's parent stands before a top-level object: what can be nested is. |
| `NsEmit.EmitInOrder` | observe/lsns.cpp:1181-1232 | Top-level objects keep the order of the table, children that of the child lists. |
| `NsEmit.EmptyIffPrinted` | observe/lsns.cpp:1148-1178 | Emission of child headers is empty exactly when all were printed, so `children` is never an empty array. |
| `NsEmit.OrderIndependent` | observe/lsns.cpp:807-900 | Two tables built from the same headers and raw parents in any order emit the same objects. |
| `NsJson.DisplayPlain` | observe/lsns.cpp:358-383 | Display names need no escaping, so printing them raw is sound. |
| `NsJson.DisplayNames` | observe/lsns.cpp:358-383 | The nine types have nine different names, everything else is unknown. |
| `NsJson.ValuesSay` | observe/lsns.cpp:1134-1213 | Read by member name, the values give back every field of every header and the objects inside it. |
| `NsJson.DocumentWellFormed` | observe/lsns.cpp:1134-1266 | The printed text is one JSON text denoting exactly the nested objects, all fields included. |
| `NsJson.DocumentCorrect` | observe/lsns.cpp:1122-1266 | For every table: the document parses, every header occurs exactly once in it, and nesting follows parents. |
| `NsJson.JsonPrinter.HaveChild` | observe/lsns.cpp:1153-1176 | True exactly when some child header is not printed yet. |
| `NsJson.JsonPrinter.BuildHeaderJson` | observe/lsns.cpp:1125-1216 | Terminates for cyclic parents; text and printed set are those of the emission model. |
| `NsJson.JsonPrinter.EmitChildren` | observe/lsns.cpp:1180-1210 | Commas stand exactly between the emitted children. |
| `NsJson.JsonPrinter.EmitHeaders` | observe/lsns.cpp:1188-1209 | One child's headers are appended in order, printed ones skipped. |
| `NsJson.JsonPrinter.EmitAll` | observe/lsns.cpp:1223-1232 | The collected strings are the renderings of the top-level objects. |
| `NsJson.JsonPrinter.RemainingReps` | observe/lsns.cpp:1233-1256 | The final loop over remaining representatives adds no object. |
| `NsJson.JsonPrinter.PrintDocument` | observe/lsns.cpp:1222-1266 | The printed text, final loop included, is the document of the emission model. |
| `Ksyms.SymOrder` | observe/kmemleak.cpp:254-263 | The symbol comparator (address, then name) is a total order. |
| `Ksyms.StrExact` | observe/kmemleak.cpp:254-263 | Names are compared as strcmp does: prefix, or smaller character at the first difference. |
| `Ksyms.NameAtOffset` | observe/kmemleak.cpp:354-361 | Reading the pool at a symbol's offset gives its name. |
| `Ksyms.RegionsDisjoint` | observe/kmemleak.cpp:354-361 | Name regions never overlap. |
| `Ksyms.Table.GrowStrs` | observe/kmemleak.cpp:319-337 | Growth makes room, keeps all earlier bytes, and a failed one changes nothing. |
| `Ksyms.Table.GrowSyms` | observe/kmemleak.cpp:338-352 | cap*4/3 always makes room because the capacity is 0 or at least 1024; earlier slots are kept. |
| `Ksyms.Table.Add` | observe/kmemleak.cpp:313-364 | A successful add appends the symbol; a failed one loses none; size never exceeds capacity. |
| `Ksyms.Table.Relocate` | observe/kmemleak.cpp:403-407 | After relocation the slots read as the added (address, name) pairs in order. |
| `Ksyms.Table.Finish` | observe/kmemleak.cpp:403-409 | The loaded table is a sorted permutation of what was added. |
| `Ksyms.Table.Find` | observe/kmemleak.cpp:285-311 | The last slot at or below the address; none exactly when there is none, empty table included. |
| `Ksyms.ResolveSymbol` | observe/workqueue-snoop.cpp:120-175 | The scan computes the nearest symbol of the lines that parse. |
| `Ksyms.ParsedConcat` | observe/workqueue-snoop.cpp:120-175 | Lines that do not parse are left out and the others keep their order. |
| `Ksyms.BestExact` | observe/workqueue-snoop.cpp:120-175 | The nearest symbol: greatest address at most the query, first listed of its address; none exactly when no symbol has 0 < addr <= query. |
| `Ksyms.SameAddress` | observe/spinlock_ob.c:186-213 | Binary search and scan find the same address whenever the scan finds one. |
| `Ksyms.SameName` | observe/spinlock_ob.c:186-213 | They find the same symbol exactly when the first listed one at that address has the greatest name; always when the address has one symbol. |
| `Ksyms.Load` | observe/kmemleak.cpp:366-412 | Adding a list and finishing gives its loaded table; it fails only when an allocation does. |
| `Ksyms.SearchesAgree` | observe/workqueue-snoop.cpp:120-175 | Over every list and its sorted table, whatever the binary search found, the scan agrees with it. |
| `Ksyms.SearchBoth` | observe/spinlock_ob.c:120-213 | For every list of symbols and every address: loaded and searched both ways, address and unique names agree, and nothing is found exactly when there is nothing. |
| `BpfMaps.TraversalStep` | observe/kmemleak.cpp:1053-1067 | Fetching the next key from a start key over an unchanging map goes through `VisitedFrom` and ends. |
| `BpfMaps.TraversalComplete` | filter/net-filter.cpp:397-409 | Such a traversal meets every key exactly when the start key is not in the map. |
| `LeakReport.AcceptedExact` | observe/kmemleak.cpp:1069-1093 | An entry is accepted exactly when it is found with a valid stack and its timestamp plus the minimum age is not after the clock; what the test wraps to outside 0..clock is stated with it. |
| `LeakReport.AcceptedInOrder` | observe/kmemleak.cpp:1052-1093 | Accepted entries come in the order of the keys, at most one for each. |
| `LeakReport.ShowCount` | observe/kmemleak.cpp:1166-1168 | The number shown is the smaller of the two, and all for a negative request. |
| `LeakReport.GrowOne` | observe/kmemleak.cpp:1099-1128 | Adding an entry to its group keeps the summary right, sizes modulo 2^64. |
| `LeakReport.AddOne` | observe/kmemleak.cpp:1134-1161 | So does opening a new group. |
| `LeakReport.SummarizesPermuted` | observe/kmemleak.cpp:1163-1164 | So does sorting. |
| `LeakReport.NothingLost` | observe/kmemleak.cpp:1095-1161 | The counts of the groups add up to the number of accepted entries. |
| `LeakReport.GroupsAreStacks` | observe/kmemleak.cpp:1095-1161 | There are as many groups as stacks with accepted entries. |
| `LeakReport.TopIsLargest` | observe/kmemleak.cpp:1023-1041 | After the sort no hidden group is larger than a shown one. |
| `LeakReport.Report.FindGroup` | observe/kmemleak.cpp:1097-1105 | The scan finds the group of a stack or reports that there is none. |
| `LeakReport.Report.Enter` | observe/kmemleak.cpp:1095-1161 | One entry is taken in; a failed allocation leaves every node owned by a group; the array is left only when there are more stacks than it holds. |
| `LeakReport.Report.Collect` | observe/kmemleak.cpp:1052-1161 | The groups summarize exactly the accepted entries of the visited keys. |
| `LeakReport.Report.FreeList` | observe/kmemleak.cpp:1188-1194 | Frees each node of a list once. |
| `LeakReport.Report.Cleanup` | observe/kmemleak.cpp:1180-1197 | Every node is freed, no list is left in the array. |
| `LeakReport.Report.Show` | observe/kmemleak.cpp:1163-1178 | The sort keeps all groups and nodes, and what is shown are the largest. |
| `LeakReport.Report.Print` | observe/kmemleak.cpp:1043-1200 | On success: distinct stacks, sums, counts and node lists right, sorted, the largest shown; all nodes freed on success and on every error; the array suffices exactly for 1000000 stacks. |
| `StackStats.PassesExact` | observe/spinlock_ob.c:550-564 | A caller passes if nothing is asked, if it has no symbol, or if its name begins with the filter. |
| `StackStats.SelectedExact` | observe/spinlock_ob.c:862-880 | A row is selected exactly when its lookup succeeded and its caller passes, with the values found. |
| `StackStats.SelectedInOrder` | observe/spinlock_ob.c:830-881 | Rows come in the order of the keys, at most one for each. |
| `StackStats.SortEntries` | observe/spinlock_ob.c:885-903 | Sorting moves blocks and rows and nothing else. |
| `StackStats.Stats.Reserve` | observe/spinlock_ob.c:832-854 | stat_idx <= stats_sz <= stats_cap is kept, a success leaves room, a failure keeps the array; it succeeds below the cap when memory does. |
| `StackStats.Stats.Fill` | observe/spinlock_ob.c:862-880 | A new block is freed or stored, according to lookup and filter. |
| `StackStats.Stats.Take` | observe/spinlock_ob.c:830-881 | One round extends the rows by the selected row of its key, within bounds. |
| `StackStats.Stats.Collect` | observe/spinlock_ob.c:830-881 | The rows are exactly the selected ones of the visited keys; the max_entries error cannot occur for a map within its size. |
| `StackStats.Stats.Lists` | observe/spinlock_ob.c:885-919 | Each list shows the rows with the largest times or counts asked for, in descending order, as many as asked for, and none hidden is larger. |
| `StackStats.Stats.Release` | observe/spinlock_ob.c:921-938 | Every block is freed exactly once. |
| `StackStats.DeleteRows` | observe/spinlock_ob.c:921-928 | The reset deletes exactly the keys of the rows that the map does not refuse to delete. |
| `StackStats.PrintStats` | observe/spinlock_ob.c:803-939 | The whole report: lists, reset, and no block left on any way out. |
| `RingBuf.PaddedFormula` | observe/lsock.cpp:763-767 | The padding rounds up to a multiple of eight. |
| `RingBuf.LogsDecoded` | observe/lsock.cpp:576-772 | Decoding inverts what the kernel writes, records of all five types with their paths and padding, whatever follows. |
| `RingBuf.RoundTrip` | observe/lsock.cpp:749-772 | A stream of records with a tail shorter than a header comes back as its records and that tail. |
| `RingBuf.StopsAt` | observe/lsock.cpp:588-592 | An unknown type stops the decoding; a path that is not all there makes it wait. |
| `RingBuf.AlignedNeverOverruns` | observe/lsock.cpp:753-770 | For sizes that are multiples of eight the subtraction never wraps and the leftover stays aligned. |
| `RingBuf.OverrunIffMisaligned` | observe/lsock.cpp:753-770 | The remaining size wraps for some buffer of a size exactly when the size is misaligned and at least a header. |
| `RingBuf.UndefinedExact` | observe/lsock.cpp:588-601 | A buffer is scanned backwards exactly when a record met has type 0 and a path length in -136..-1, and its size wraps exactly when a record met has its padding cut off. |
| `RingBuf.NegativeScans` | observe/lsock.cpp:588-601 | In every size from one header on there is a buffer that is scanned backwards. |
| `RingBuf.AlwaysInsideIffShort` | observe/lsock.cpp:749-772 | All buffers of a size stay inside exactly when the size is less than a header. |
| `RingBuf.AlignedScansPast` | observe/lsock.cpp:588-601 | An aligned buffer of one header with path length -1 is scanned past its end. |
| `RingBuf.LeftoverIsSuffix` | observe/lsock.cpp:749-772 | The leftover is the end of the buffer. |
| `RingBuf.Incremental` | observe/lsock.cpp:749-772 | Decoding a then leftover and b equals decoding a and b together: records, leftover and reason. |
| `RingBuf.ChunksDoNotMatter` | observe/lsock.cpp:749-772 | Any division of a stream into aligned reads gives the same records and leftover. |
| `RingBuf.ReplaceNuls` | observe/lsock.cpp:593-601 | Inner NULs of a path become @ in place, its last byte and all other bytes are kept. |
| `RingBuf.ProcessRingBuf` | observe/lsock.cpp:749-772 | The in-place loop terminates and yields the records, the stop reason and the leftover of the decoder. |
| `CgroupLog.RoundTrip` | observe/lscgroup.cpp:352-401 | Decoding a concatenation of records recovers the list and leaves the tail. |
| `CgroupLog.TruncatedDump` | observe/lscgroup.cpp:371-376 | With the last record cut anywhere, all complete records are recovered. |
| `CgroupLog.Sound` | observe/lscgroup.cpp:352-401 | On every buffer: records and leftover make up the buffer, and the leftover starts no complete record. |
| `CgroupLog.Maximal` | observe/lscgroup.cpp:352-401 | There is only one such division, so the decoded prefix is maximal. |
| `CgroupLog.ProcessLog` | observe/lscgroup.cpp:352-401 | The loop computes the decoder and never passes the end. |
| `CgroupLog.ReadDump` | observe/lscgroup.cpp:461-477 | Doubling terminates with the whole dump in a buffer at most twice as large. |
| `CgroupLog.ReadAndDecode` | observe/lscgroup.cpp:461-492 | Reading and decoding a dump of records gives the records. |
| `Shell.ShellQuote` | filter/net-limit.cpp:641-658 | The loop computes the quoting that the lemmas below are about. |
| `Shell.QuoteIsOneWord` | filter/net-limit.cpp:641-658 | Between two word lists a quoted string is exactly one word, itself (sections 2.2.1, 2.2.2 and 2.3 of the POSIX.1-2017 Shell Command Language). |
| `Shell.QuoteAtEnd` | filter/net-limit.cpp:760-763 | Also at the end of a command. |
| `Shell.SetupQdiscWords` | filter/net-limit.cpp:705-713 | For every device name the qdisc command has exactly its intended words. |
| `Shell.AddClassWords` | filter/net-limit.cpp:745-749 | For every device name and rate the add command has exactly its intended words. |
| `Shell.DelClassWords` | filter/net-limit.cpp:752-758 | So has the delete command. |
| `Shaping.ClassIdRange` | filter/net-limit.cpp:1538-1543 | The minor is the low 16 bits, or 10 where those are 0 or 0xffff; so always in 1..0xfffe and never the default class. |
| `Shaping.Collide` | filter/net-limit.cpp:1573-1577 | Two cgroups share a class exactly when their low 16 bits agree or both fall back. |
| `Shaping.ClassIdReads` | filter/net-limit.cpp:619-627 | The text of a class id is `1:` and hexadecimal digits that read back as its minor. |
| `Shaping.AddCommand` | filter/net-limit.cpp:619-627 | The class id is written as one bare word of the add command. |
| `Shaping.Shaper.ShapeAdd` | filter/net-limit.cpp:1515-1549 | Class before rule; success means the cgroup's rule is stored and its class live; no other rule or class changes. |
| `Shaping.Shaper.ShapeDel` | filter/net-limit.cpp:1551-1589 | Rule before class, both from the same class id as add; the class goes whether or not the rule did; no other rule or class changes. |
| `Shaping.RunLeaves` | filter/net-limit.cpp:1515-1589 | After every run a cgroup has a rule exactly when the last command on it that reached the map was an add, and a class is there exactly when the last one for it that tc carried out was. |
| `Shaping.SafeIff` | filter/net-limit.cpp:1515-1589 | From a safe state a command, with any failures, stays safe exactly when it deletes no class that a rule left in the map needs. |
| `Shaping.AlwaysSafe` | filter/net-limit.cpp:1515-1589 | Over every run without colliding class ids, with any failures except a class deleted after its rule could not be, every stored rule points at a live class. |
| `Shaping.SharedClassDangles` | filter/net-limit.cpp:1573-1579 | For every two cgroups with one class, deleting the first leaves the rule of the second dangling. |
| `Shaping.KeptRuleDangles` | filter/net-limit.cpp:688-703 | For every cgroup, a delete that loses the class but not the rule leaves it dangling. |
| `Shaping.CollisionDangles` | filter/net-limit.cpp:1551-1589 | Concrete runs: a shared class, a map that does not open, a map that refuses the deletion. |
| `MountInfo.DecodeLoop` | filter/net-limit.cpp:156-175 | The loop computes the decoding. |
| `MountInfo.DecodeInvertsEscape` | filter/net-limit.cpp:156-175 | Decoding inverts the kernel's escaping for every path. |
| `MountInfo.FindSeparator` | filter/net-limit.cpp:187-194 | The separator is found after the optional fields when none of them is a dash. |
| `MountInfo.OtherSkipped` | filter/net-limit.cpp:193-201 | A rendered line is passed over exactly when its type is not cgroup2. |
| `MountInfo.SplitEscape` | filter/net-limit.cpp:203-211 | The fields that an escaped path falls into are its escaped pieces between vertical tabs, form feeds and carriage returns. |
| `MountInfo.OnePiece` | filter/net-limit.cpp:203-211 | A path is one piece exactly when such characters stand only before and after it. |
| `MountInfo.AnswerIs` | filter/net-limit.cpp:203-213 | A cgroup2 line is answered with the second of the pieces of root, mount point and options. |
| `MountInfo.BrokenRoot` | filter/net-limit.cpp:203-213 | A root broken in two is answered with its second half, whatever the mount point. |
| `MountInfo.WrongRoot` | filter/net-limit.cpp:203-213 | A concrete line whose root has a carriage return and whose mount point has none is answered wrongly. |
| `MountInfo.AnswerExact` | filter/net-limit.cpp:187-213 | The exact answer of every cgroup2 line, by the pieces of its root: the mount point or a prefix of it, a piece of the root, or one field too far. |
| `MountInfo.RightAnswer` | filter/net-limit.cpp:187-213 | When that is the mount point, both ways. |
| `MountInfo.FindsFirstCgroup2` | filter/net-limit.cpp:177-216 | Over every rendered table: failure exactly when there is no cgroup2 mount, otherwise the exact answer of the first one, which is its mount point if its root is one piece and the mount point has none of the three characters. |
| `MountInfo.GetCgroup2Mount` | filter/net-limit.cpp:177-216 | The loop computes that lookup. |
| `RuleMaps.OthersExact` | filter/net-limit.cpp:1690-1715 | What is kept is exactly what does not match scope and id. |
| `RuleMaps.DeleteForTarget` | filter/net-limit.cpp:1690-1742 | Terminates for every map, removes all and only the keys with that scope and id, and leaves other values and their order alone. |
| `RuleMaps.RuleTable.AddRule` | filter/net-filter.cpp:313-323 | The new id is the counter; a taken key or a full map changes nothing. |
| `RuleMaps.RuleTable.DelRule` | filter/net-filter.cpp:382-385 | Removes that rule only. |
| `RuleMaps.RuleTable.ClearRules` | filter/net-filter.cpp:387-395 | Resuming from a deleted key terminates and empties the map, unless key 0 is present and last. |
| `RuleMaps.RuleTable.DumpRules` | filter/net-filter.cpp:397-409 | The dump is the visited part of the map; all of it exactly when key 0 is absent. |
| `RuleMaps.RuleTable.Execute` | filter/net-filter.cpp:313-395 | Any run of commands on the table is a run of the transition function of the next two rows. |
| `RuleMaps.IdsNeverReused` | filter/net-filter.cpp:313-323 | Over every run in which the counter does not wrap, ids are handed out in order and never twice. |
| `RuleMaps.ClearAlwaysEmpties` | filter/net-filter.cpp:387-395 | Over every such run from a positive first id, key 0 never is in the map and clearing empties it. |
| `Policy.PidRoundTrip` | policy/frtp.cpp:466-476 | Every process id is read back from the union as that process id. |
| `Policy.PathRoundTrip` | policy/frtp.cpp:456-465 | Every non-empty path is read back as that path, up to the buffer size; only the empty one would be taken for a process id. |
| `Policy.SubjectRoundTrip` | policy/frtp.cpp:454-482 | The subject of every accepted line survives being stored. |
| `Policy.TargetsAgree` | policy/frtp.cpp:67-92 | Two files have one target exactly when inode and the kept device bits agree. |
| `Policy.DevParts` | policy/frtp.cpp:67-72 | Major and minor number can be read back from the high and low bits of the device. |
| `Policy.ExpansionExact` | policy/frtp.cpp:358-406 | The recursion gives a rule to exactly the directories of the tree, symbolic links not followed. |
| `Policy.ExpansionOnce` | policy/frtp.cpp:358-406 | No directory is given two. |
| `Policy.PathsApart` | policy/frtp.cpp:379-386 | Different directories have different paths. |
| `Policy.RulesFor` | policy/frtp.cpp:364-366 | Every rule of an expansion has the subject and action of its line and the target of its directory. |
| `Policy.RecordFinds` | policy/frtp.cpp:341-345 | A target is in the table exactly when a listed path has it, and leads to such a path. |
| `Policy.RecordLast` | policy/frtp.cpp:341-345 | Of several paths with one target the last is kept. |
| `Policy.PathsResolve` | policy/frtp.cpp:327-346 | Every target leads back to its own path exactly when no two listed paths share a target. |
| `Policy.RootCovered` | policy/frtp.cpp:501-544 | For every spelling of the root, k slashes and an optional star: rules exactly when k is at least 2, and then for the whole tree. |
| `Policy.PlainRootFails` | policy/frtp.cpp:501-570 | The spellings with one slash give no rule. |
| `Policy.DirectoryProtected` | policy/frtp.cpp:418-574 | A directory line puts a rule for every directory of its tree into the list, and its target leads back to its path. |
| `Policy.FileProtected` | policy/frtp.cpp:550-562 | A good line for a regular file gives exactly one rule, for that file, whose target leads back to it. |
| `Policy.RulesExact` | policy/frtp.cpp:418-574 | The rules of a policy are exactly those its good lines give for the directories of their trees or for their files. |
| `Policy.LinePathsExact` | policy/frtp.cpp:501-570 | What a line covers, by its target alone: a directory tree when it ends in a slash or a slash and a star, a regular file otherwise. |
| `Policy.BaseExact` | policy/frtp.cpp:454-508 | A line is good exactly when subject, action and target are. |
| `Policy.SubjectExact` | policy/frtp.cpp:456-482 | The subject is an absolute process path, or the number as a 32-bit process id that is not negative. |
| `Policy.ActExact` | policy/frtp.cpp:483-499 | The action is r, w or rw and forbids what its letters say. |
| `Policy.RuleSet.Path2Target` | policy/frtp.cpp:327-346 | On failure the target and the table stay as they were. |
| `Policy.RuleSet.AddDirectories` | policy/frtp.cpp:358-406 | The recursion appends exactly the rules of the tree's directories and records their paths. |
| `Policy.RuleSet.Parse` | policy/frtp.cpp:418-574 | Rules and table after a file are those of its good lines, in order. |
| `Policy.RuleSet.HandleEvent` | policy/frtp.cpp:610-619 | The reported path; the look-up's insertion changes no later answer. |
| `Policy.EventNamesFile` | policy/frtp.cpp:610-619 | With distinct targets an event below a listed directory is reported with the full path of its file. |
| `Policy.Filter.Load` | policy/frtp.cpp:584-597 | Rule i is stored under key i+1 up to the first failure, and no other key changes. |

## Left out

- How the representative of a namespace is selected from processes and threads; headers arrive with their representative.
- Column formatting, `truncate_cmd` and uniqueness of rows below orphans in text mode of `lsns`.
- Bytes of JSON strings: characters stand for bytes, so UTF-8 validity of command lines is not addressed; the JSON reader accepts only what the printer can print (no literal names, fractions or exponents).
- Concurrent change: maps, `/proc` and the file system answer one function during a call; lookups that fail because an entry vanished are covered, keys that appear during a traversal are not.
- Errors of `bpf_map_get_next_key` other than the end of the map; they take the same way out as a failed lookup.
- LeakReport.Report.Print: nothing is said of what happens after a group was written past the end of the array; the condition under which that happens is exact.
- LeakReport.Report.Print: what `print_stack_frames` writes and its own buffer are not modelled.
- StackStats.PrintStats: printing itself, with its division by the counts, is not modelled; the first frame of a stack whose lookup failed is an arbitrary value.
- Pointers: a heap block is a number and a linked list a value whose nodes carry their block, so aliasing between lists is ruled out by the count of live blocks, not by addresses.
- 32-bit overflow of the symbol pool's capacity and scanning of `/proc/kallsyms` lines.
- RingBuf.ProcessRingBuf: where the source scans a reversed range, which C++ leaves undefined, the model stops with a reason of its own; when that happens is exact.
- Placement of a carried-over tail in the buffer of `lsock`, and its circular buffer.
- CgroupLog.RoundTrip: the header of a record is 64 raw bytes, its fields are not told apart.
- Shell.QuoteIsOneWord: expansions, operators, braces and `!` outside quotes are errors of the tokenizer, so prefix and suffix must be plain words; aliases and reserved words spelt in letters are not modelled; NUL cannot occur in a C string and is not treated.
- RuleMaps.DeleteForTarget: a deletion of a key that is in the map succeeds; the same holds of the loop of `clear_rules`.
- NsTable.TextPrinter.PrintTable: a row is a header and the prefix of its command; the text of the columns is not modelled.
- NsJson.JsonPrinter.RemainingReps: the object it would build is not modelled in full, since it is never built.
- MountInfo.GetCgroup2Mount: takes the lines of a mountinfo file that could be opened.
- Normalisation of the rate's unit before it is quoted, and the second command of `shape_setup_htb`, which has the form of the add command.
- RuleMaps.RuleTable.AddRule: the first value of the id counter is a parameter, since the header that sets it is not part of this model.
- `NetFilter::update_rule` and `parse_port`, which do not do what their names say, and all rule-text parsing.
- Policy.RuleSet.Parse: lines arrive split into fields (`sscanf`, `strtol`), and paths longer than PATH_MAX, which `snprintf` would cut, are not treated.
- Policy.ExpansionOnce: assumes what file systems guarantee, that names in a directory differ and contain no slash.
- Skeleton loading, ring-buffer polling, signals, threads, argument parsing, and the tools whose code only dispatches and prints.
