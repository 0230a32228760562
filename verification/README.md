# Bebop: the schema compiler's algorithms and the wire runtime

Bebop is a schema compiler and a wire-format runtime in C. This project models the parts of both that are
algorithms rather than plumbing, and proves what they are for. Each Dafny module follows one component; where
the C code works step by step on arrays, cursors or stacks, the module has methods or classes that do the same,
proved against functions and predicates that say what the result means.

| modules | component |
|---|---|
| `Bits`, `MessageIndex`, `MessageReader`, `MessageWriter` | indexed messages: field boundary table, eight kinds of tag directory, eager and lazy validation, lookup by popcount rank, iterator, writer |
| `Swar`, `SwissTable`, `MapGrowth`, `MapRuns` | the hash map: eight control bytes at a time in a 64-bit word, tombstones, triangular probing, rehash |
| `Arena`, `ArenaSafety` | the lock-free bump arena, as interleaved atomic steps of any number of threads |
| `Graphs`, `Toposort`, `CycleFinder`, `FixedSizes` | the definition graph: topological sort, explanation of a cycle, one-pass wire sizes |
| `Interner` | the string interner with collision chains |
| `Integers`, `EnumExpr` | integer literals; the operator-precedence evaluator for enum values, with explicit frames |
| `TypeText` | the type parser and the type printer, both with explicit stacks |
| `Utf8`, `Literals`, `Scanner` | UTF-8, escapes in literals, the lossless scanner |
| `Calendar`, `Decimal`, `Timestamp`, `Duration` | timestamp and duration text |
| `Wrappers`, `Arithmetic`, `Ascii`, `Excerpts` | shared: options, facts about products and quotients, character names, places in a text |

## Main results

- Indexed messages. Eager validation succeeds exactly when lazy validation and the fetch of every rank succeed
  (`LazyEqualsEager`), on every byte string. On every accepted message, canonical or not, the popcount lookup, the
  access by rank and the iterator agree with one meaning of the directory, no accepted message makes them report an
  error, and the field slices tile the payload. What the writer produces is accepted and gives back every tag and
  slice (`RoundTrip`, `RoundTripField`); its size is the predicted one (`SizeIsExact`); no directory that lists the
  same tags is shorter (`LayoutIsMinimal`).
- Hash map. Every operation of the class is proved against a finite map: `Get`, `Set`, `Remove`, `Clear`, `Grow` and
  the iterator, for any equality that the hash respects. `Set` returns false exactly when the key is new and every
  group of its probe window is full, or a grow that is due fails; a grow that is granted memory works whenever the
  windows of the keys are wide enough, and always up to 256 slots (`MapGrowth`). Over every run whose sets return true,
  a lookup returns the value last set for its key (`MapRuns.Run`).
- Arena. In every interleaving of alloc and realloc calls, with spurious compare-and-swap failures and refused
  memory, live regions are disjoint and inside published blocks, no block is lost, the totals add up (`RunSafe`), and
  a realloc keeps the bytes of its region whatever the other threads do (`ReallocKeepsBytes`).
- Definition graph. An order is returned exactly for acyclic multigraphs, and is a permutation with dependencies
  first; a displayed cycle is a real one, and one is displayed exactly when the blamed definition leads to one
  (`Toposort.Sort`, `FindCycle`). In that order, one pass computes the exact recursive sizes (`SortAndSize`).
- Text. Evaluator, type parser and type printer equal their recursive counterparts; the printed form of a type, a
  literal, a timestamp and a duration is read back to the value it was printed for, each under the exact condition
  for that (an if and only if); the scanner's spans tile the source and its line numbers count line breaks.

## Where the code and its comments differ, and results that are false without a condition

The model follows the code.

- `bebop_wire.c:3584-3589`: the comment on the empty match speaks of bit 0, the code tests bit 6. It is exact on the
  three kinds of control byte (`Swar.MatchEmptySlots`).
- The probe step of the map is in slots, not groups, and the window is cut off, so a set can fail although slots are
  free: `MapGrowth.NinthSetFails` gives a run, `SwissTable.PlaceMeaning` the exact condition.
- Pointers from the arena are aligned if and only if the block header's size is a multiple of the alignment
  (`ArenaSafety.RunAligned`). With a header of 24 bytes and an alignment of 16 no pointer is (`HeaderOf24`).
- The definition blamed for a cycle may only lie behind it. Then no path is shown, only the name
  (`Toposort.BlamedMayMissCycle`, and the exact condition in `Toposort.Sort`).
- Printer and parser of types have different limits, so a type that the parser accepts can be printed with its
  innermost part left out (`TypeText.LimitsDiffer`). The printer's check for a map allows for three entries where four
  are pushed, so it overruns its stack on another type that the parser accepts (`TypeText.AcceptedTypeOverruns`).
  `TypeText.PrintThenParse` has the exact condition for a round trip.
- The emitter converts the year of a timestamp to `int`, so the text of an instant in a distant year can be read as
  another instant (`Timestamp.DistantYearAccepted`); `Timestamp.TextParsedBack` has the exact conditions.
- The overflow test of integer literals misses some wrap-arounds (`Integers.WrapUnnoticed`); `Integers.IntegerRead` has
  the exact condition.
- A `)` that is missing from an enum expression is reported and the evaluation goes on; `EnumExpr` keeps the value and
  the report apart.
- A literal that the end of the source cuts off becomes an ordinary token (`Literals.CutOffReadsAsClosed`).
- A trailing number without a unit, after other parts of a duration, is ignored by the parser
  (`Duration.TrailingNumberIgnored`).
- The timestamp entry of `bebop_tables.h:71` says 12 bytes; the size of a timestamp on the wire, and in the size pass,
  is 16.

## Model

| member | source | states |
|---|---|---|
| `MessageIndex.LoadStore` | bebop/src/bebop_wire.c:80-105 | a little-endian load of 1, 2 or 4 bytes undoes the store of any value that fits, wherever the bytes stand |
| `MessageIndex.RankIsPosition` | bebop/src/bebop_wire.c:1200-1273 | in an accepted directory of any kind, the number of listed tags below a listed tag is its position among the listed tags, so popcount ranks are positions |
| `MessageIndex.CountIsTags` | bebop/src/bebop_wire.c:884-951 | the field count that the validators compute from any accepted directory is the number of tags it lists, which is at most 255 |
| `MessageIndex.TinyTags` | bebop/src/bebop_wire.c:953-962 | for the tiny directories the strictly increasing bytes are exactly the listed tags |
| `MessageReader.IndexParse` | bebop/src/bebop_wire.c:860-994 | the eager validator returns OK exactly for well-formed messages and MALFORMED for all other byte strings; the index it fills in is the one the bytes determine |
| `MessageReader.IndexBegin` | bebop/src/bebop_wire.c:1010-1115 | the lazy validator returns OK exactly for messages whose frame and directory are good, whatever the boundary table holds; same index |
| `MessageReader.ReadDirectory` | bebop/src/bebop_wire.c:878-971 | the directory checks accept exactly the good directories, and give the field count |
| `MessageReader.BoundariesAscend` | bebop/src/bebop_wire.c:973-985 | the boundary loop accepts exactly the tables that never decrease and never leave the payload |
| `MessageReader.LazyEqualsEager` | bebop/src/bebop_wire.c:860-1188 | for every byte string, eager validation succeeds if and only if lazy validation succeeds and every field rank below the count can be fetched |
| `MessageReader.FieldsTilePayload` | bebop/src/bebop_wire.c:1165-1188 | the field slices in rank order, put together, are a prefix of the payload and in the end all of it: no gap, no overlap |
| `MessageReader.FieldBetweenEdges` | bebop/src/bebop_wire.c:1165-1188 | each field of a well-formed message lies between the boundaries before and after it |
| `MessageReader.IndexField` | bebop/src/bebop_wire.c:1200-1273 | the popcount lookup finds exactly the listed tags, and for those answers what access by rank answers for the number of listed tags below; absent tags, tag 0 and empty messages give OK and absent |
| `MessageReader.RankInTiny` | bebop/src/bebop_wire.c:1215-1229 | the early-exit search of the tiny directories gives presence and rank |
| `MessageReader.RankInMask` | bebop/src/bebop_wire.c:1230-1245 | one mask and one popcount give presence and rank |
| `MessageReader.RankInBlocks` | bebop/src/bebop_wire.c:1246-1262 | top mask, entry position, rank byte and block mask give presence and rank |
| `MessageReader.LookupNeverMalformed` | bebop/src/bebop_wire.c:1165-1273 | on a message that parsed, canonical or not, no lookup of a listed tag reports MALFORMED |
| `MessageReader.FastAgreesWithScan` | bebop/src/bebop_wire.c:1200-1366 | the listed tags are strictly increasing, the k-th of them has rank k, and lookup reports present exactly those |
| `MessageReader.FieldIterator.constructor` | bebop/src/bebop_wire.c:1295-1317 | the iterator starts before the first tag |
| `MessageReader.FieldIterator.NextTag` | bebop/src/bebop_wire.c:1319-1366 | the iterator delivers exactly the listed tags, one per call and in increasing order, and its two MALFORMED branches are never taken on an index from either validator |
| `MessageReader.FieldIterator.Next` | bebop/src/bebop_wire.c:1368-1381 | with each tag comes the field of its rank |
| `MessageReader.FieldIterator.PopTag` | bebop/src/bebop_wire.c:1339-1358 | count-trailing-zeros and clearing the lowest bit deliver the next pending tag of a block and no other |
| `MessageWriter.CheckTags` | bebop/src/bebop_wire.c:113-127 | accepts exactly the strictly increasing nonzero tag lists |
| `MessageWriter.CheckOffsets` | bebop/src/bebop_wire.c:3308-3317 | accepts exactly offset lists that start at 0, never decrease and stay in the payload |
| `MessageWriter.DirectoryLayout` | bebop/src/bebop_wire.c:129-163 | the layout loop computes the block mask from the tags and picks the layout |
| `MessageWriter.DirectoryDenotes` | bebop/src/bebop_wire.c:3338-3380 | the directory written for any tag list is one the validators accept, lists exactly those tags, and has the size the layout says, for all eight kinds |
| `MessageWriter.LayoutIsMinimal` | bebop/src/bebop_wire.c:129-163 | no directory of any kind that lists the same tags is shorter than the one chosen |
| `MessageWriter.SizeIsExact` | bebop/src/bebop_wire.c:3259-3277 | the predicted size is the length of the message whenever there is one, and the sentinel exactly when there is none |
| `MessageWriter.MetadataLength` | bebop/src/bebop_wire.c:3319-3324 | the room reserved for table, directory and control byte is what they take |
| `MessageWriter.RoundTrip` | bebop/src/bebop_wire.c:3279-3384 | whatever was written parses, with the written field count, and lookup reports present exactly the written tags |
| `MessageWriter.RoundTripField` | bebop/src/bebop_wire.c:3279-3384 | looking up a written tag yields exactly its slice of the payload, for all directory kinds and offset widths |
| `MessageWriter.Writer.Reserve` | bebop/src/bebop_wire.c:1421-1457 | makes room in a buffer of the doubled size or refuses, with the exact answer and size in each case, and never changes what was written |
| `MessageWriter.DoubledIsLeast` | bebop/src/bebop_wire.c:1437-1445 | the doubling loop ends at the least size of its sequence that has room, or at the size asked for when one more doubling would not fit |
| `MessageWriter.Writer.PutLE` | bebop/src/bebop_wire.c:93-105 | appends the little-endian bytes of a value |
| `MessageWriter.Writer.EndLength` | bebop/src/bebop_wire.c:3238-3257 | patches exactly the four length bytes, or answers MALFORMED |
| `MessageWriter.Writer.PutBlocks` | bebop/src/bebop_wire.c:3357-3377 | the block loop appends the rank-prefixed entries of the blocks that hold tags |
| `MessageWriter.Writer.EndIndexedMessage` | bebop/src/bebop_wire.c:3279-3384 | the answer in every case: what the checks of the arguments say, and if they pass what reserving the metadata answers; on OK the buffer holds the encoding of the payload written so far, and on any other answer nothing changed |
| `Swar.MatchH2Slots` | bebop/src/bebop_wire.c:3575-3581 | the H2 word selects every slot with that H2, and any other slot it selects is full |
| `Swar.MatchEmptySlots` | bebop/src/bebop_wire.c:3584-3589 | the empty word is exact on the three kinds of control byte |
| `Swar.MatchVacantSlots` | bebop/src/bebop_wire.c:3592-3596 | the vacant word selects exactly the slots that are not full |
| `Swar.ClearedLanes` | bebop/src/bebop_wire.c:3631-3635 | clearing the byte of the first match leaves exactly the later matches |
| `Swar.NoHits` | bebop/src/bebop_wire.c:3599-3618 | a match word is zero exactly when it selects no slot |
| `Swar.FirstFrom` | bebop/src/bebop_wire.c:3599-3618 | the first set byte is the first selected slot: it is selected and none before it is |
| `SwissTable.ProbeOffsetClosed` | bebop/src/bebop_wire.c:3622-3625 | the probe offsets are the triangular numbers, in slots |
| `SwissTable.KnownAbsent` | bebop/src/bebop_wire.c:3637-3675 | after an empty slot was seen or the window is used up, no stored key equals the one looked for |
| `SwissTable.PlaceMeaning` | bebop/src/bebop_wire.c:3693-3743 | a new key has a place if and only if some group of its probe window is not full |
| `SwissTable.PlaceReachable` | bebop/src/bebop_wire.c:3693-3741 | the place of a new key is one that a later search finds |
| `SwissTable.WindowMissesRoom` | bebop/src/bebop_wire.c:3622-3744 | the window can miss free slots: in a table of sixteen slots whose first eight are full a key that starts there has no place |
| `SwissTable.InvInsert` | bebop/src/bebop_wire.c:3731-3741 | inserting a key keeps the table invariant: every stored key in its window with no empty slot in an earlier group, no key twice, growth_left plus the used slots at 7/8 of the capacity |
| `SwissTable.InvRemove` | bebop/src/bebop_wire.c:3746-3782 | so does removing one, which leaves a tombstone |
| `SwissTable.HashMap.constructor` | bebop/src/bebop_wire.c:4171-4217 | a new map is empty and has no storage, so its capacity is 0 |
| `SwissTable.HashMap.Find` | bebop/src/bebop_wire.c:3637-3675 | the probe loop finds a stored key equal to the one given, or there is none |
| `SwissTable.HashMap.Get` | bebop/src/bebop_wire.c:3637-3675 | returns the value the abstract map holds for the key, under any equality the hash respects |
| `SwissTable.HashMap.Set` | bebop/src/bebop_wire.c:3677-3744 | true exactly when the key is there or has a place, after a grow if one is due; then the abstract map is updated at that key and nowhere else. When false no entry changed, and none is missing unless a rehash failed; refused memory changes nothing at all |
| `SwissTable.HashMap.Insert` | bebop/src/bebop_wire.c:3689-3743 | the probe loop of set with its remembered vacant slot; a false return changes nothing at all |
| `SwissTable.HashMap.Grow` | bebop/src/bebop_wire.c:3821-3860 | true exactly when memory is granted and every old key finds a place; then the abstract map is kept, the capacity doubled, there are no tombstones, and none of the sets grew in turn. Refused memory changes nothing |
| `MapGrowth.RoomInWindow` | bebop/src/bebop_wire.c:3693-3743 | a new key has a place when fewer slots are full than the groups of its window have |
| `MapGrowth.GrowWorksWhenRoomy` | bebop/src/bebop_wire.c:3821-3860 | a grow that is granted memory works when the window of every stored key has more slots than there are other entries; afterwards a new key has a place when its window has more slots than there are entries |
| `MapGrowth.WindowWidth` | bebop/src/bebop_wire.c:3622-3625 | a window has at least n - 4 different groups when the n-th probe offset stays eight slots below the capacity |
| `MapGrowth.GrowWorksBelow` | bebop/src/bebop_wire.c:3821-3860 | so a grow of a table of any size works for that many groups of entries |
| `MapGrowth.SmallGrowWorks` | bebop/src/bebop_wire.c:3821-3860 | a grow from at most 128 slots that is granted memory never fails, whatever the hashes |
| `MapGrowth.NinthSetFails` | bebop/src/bebop_wire.c:3677-3744 | nine different keys that start at slot 0 of 16, set in an empty map with memory granted: eight are stored and the ninth is refused, with half of the table free |
| `SwissTable.HashMap.Remove` | bebop/src/bebop_wire.c:3746-3782 | true exactly when the key was stored; afterwards it is not, and all else is |
| `SwissTable.HashMap.Clear` | bebop/src/bebop_wire.c:3784-3791 | the map is empty and keeps its storage |
| `SwissTable.MapIterator.constructor` | bebop/src/bebop_wire.c:3793-3797 | iteration starts with nothing delivered |
| `SwissTable.MapIterator.Next` | bebop/src/bebop_wire.c:3799-3819 | each call delivers an entry not delivered before, and iteration ends when all keys were |
| `MapRuns.SetLookup` | bebop/src/bebop_wire.c:3677-3744 | updating the abstract map at the stored key changes what is looked up for exactly the keys equal to it |
| `MapRuns.RemoveLookup` | bebop/src/bebop_wire.c:3746-3782 | removing a key makes exactly the keys equal to it absent |
| `MapRuns.Run` | bebop/src/bebop_wire.c:3637-3791 | over every run of set, get, remove and clear from an empty map, and for any equality that the hash respects: as long as the sets returned true, get returns the value last set for the key and not removed since, and remove says whether there was one |
| `Arena.AlignRoundsUp` | bebop/src/bebop_wire.c:172-175 | rounding up gives the next multiple of the alignment, and rounding twice changes nothing |
| `Arena.BlockCapacity` | bebop/src/bebop_wire.c:177-206 | a request is refused exactly when its rounded size is over the limit; otherwise the block has room for it, respects the limit, and is no smaller than the configured size where that respects it |
| `ArenaSafety.ActionSafe` | bebop/src/bebop_wire.c:272-361 | every atomic step of every thread, spurious compare-and-swap failures and refused memory included, keeps the arena invariant |
| `ArenaSafety.RunSafe` | bebop/src/bebop_wire.c:272-361 | in every interleaving: live regions are pairwise disjoint, each in the used part of one published block; the chain from current_block visits every block ever published; no block is leaked; total_used and total_allocated plus the pending additions are the sums over the blocks |
| `ArenaSafety.StartSafe` | bebop/src/bebop_wire.c:208-231 | a new arena satisfies the invariant |
| `ArenaSafety.TopmostIsInside` | bebop/src/bebop_wire.c:337-346 | the address test of realloc is exact: a region that ends where the used part of a block ends lies in that block |
| `ArenaSafety.RegionsTop` | bebop/src/bebop_wire.c:272-361 | taking the range above the used part, for a new region or to extend the last one, overlaps no live region |
| `ArenaSafety.PublishSafe` | bebop/src/bebop_wire.c:290-305 | publishing a block by compare-and-swap loses no published block, whoever else published meanwhile |
| `ArenaSafety.ReserveSafe` | bebop/src/bebop_wire.c:308-313 | reserving by compare-and-swap on used gives a region no one else has |
| `ArenaSafety.GrowReserveSafe` | bebop/src/bebop_wire.c:343-351 | extending in place is safe although ptr was tested before the swap |
| `ArenaSafety.AllocReturns` | bebop/src/bebop_wire.c:272-318 | whatever the others do meanwhile, alloc returns NULL or a live region of the size asked for |
| `ArenaSafety.ReallocKeepsBytes` | bebop/src/bebop_wire.c:320-361 | whatever the others do meanwhile, realloc returns NULL and leaves the region, or returns a live region of the new size that begins with the old bytes |
| `ArenaSafety.RunAligned` | bebop/src/bebop_wire.c:167-175 | with an allocator that aligns blocks, a pointer handed out is aligned for every type if and only if the header size is a multiple of the alignment |
| `ArenaSafety.HeaderOf24` | bebop/src/bebop_wire.c:167-175 | with a header of 24 bytes and an alignment of 16 no pointer that is handed out is aligned |
| `ArenaSafety.ChainUnique` | bebop/src/bebop_wire.c:233-250 | there is only one way to follow the chain |
| `ArenaSafety.Destroy` | bebop/src/bebop_wire.c:233-250 | when no call is in progress the walk frees every block, and the sizes it gives back add up to total_allocated |
| `Graphs.SourcesFirstNoCycle` | bebop/src/bebop_validate.c:1107-1123 | an order in which every dependency stands first contains no cycle |
| `Graphs.SourcesMakeCycle` | bebop/src/bebop_validate.c:1125-1136 | where every node left over has a source left over, each of them has a cycle behind it |
| `Toposort.GraphMeans` | bebop/src/bebop_validate.c:1059-1087 | after the edge loop, the lists hold exactly the edges of the dependencies that resolve and are not skipped |
| `Toposort.EdgeLists.AddEdge` | bebop/src/bebop_validate.c:893-918 | appends one edge and counts it, growing the list by the capacity rule; fails exactly when the list is full and memory is refused or its capacity cannot double, and then changes nothing |
| `Toposort.EdgeLists.Build` | bebop/src/bebop_validate.c:1059-1091 | the edge loops build the graph with its in-degrees, or memory ran out |
| `Toposort.QueueRoots` | bebop/src/bebop_validate.c:1093-1097 | the queue starts with exactly the definitions without dependencies |
| `Toposort.SortStep` | bebop/src/bebop_validate.c:1111-1122 | using up one edge keeps the sort's invariant; a definition is queued once, so the queue has room and the overflow branch is unreachable |
| `Toposort.UseEdges` | bebop/src/bebop_validate.c:1111-1122 | the inner loop lowers in-degrees and queues what becomes free |
| `Toposort.Kahn` | bebop/src/bebop_validate.c:1107-1123 | the sorted definitions are exactly those that no cycle reaches, each after all it depends on; all of them if and only if the graph is acyclic |
| `Toposort.Sort` | bebop/src/bebop_validate.c:1046-1142 | an order is returned exactly for acyclic graphs (memory permitting) and is a permutation with dependencies first; otherwise the first definition on or behind a cycle is blamed, and a cycle is shown exactly when that definition leads to one |
| `Toposort.BlamedMayMissCycle` | bebop/src/bebop_validate.c:1059-1136 | three structs for which the blamed definition lies behind the cycle and leads to none, so that only its name is shown |
| `CycleFinder.FindCycle` | bebop/src/bebop_validate.c:920-1020 | the path shown is a closed walk along edges without repetition; one is found if and only if the start leads to a cycle; the bounds checks of path and stack never fail |
| `CycleFinder.Popped` | bebop/src/bebop_validate.c:963-965 | a node is closed only when all its targets are, so closed nodes are on no cycle |
| `CycleFinder.BackIntoPath` | bebop/src/bebop_validate.c:948-953 | an edge back into the path closes a cycle that the start reaches |
| `FixedSizes.MulOverflowsMeans` | bebop/src/bebop.c:166-166 | the division test is exact: it says whether the product leaves 32 bits |
| `FixedSizes.TypeFixedSize` | bebop/src/bebop.c:3071-3108 | the multiplier loop returns the exact size of a type, or 0 when that is not fixed, is 0, or does not fit in 32 bits, although it gives up on partial products |
| `FixedSizes.StructSize` | bebop/src/bebop_validate.c:1578-1593 | the sum loop of a struct does the same for its fields |
| `FixedSizes.ComputeFixedSizes` | bebop/src/bebop_validate.c:1570-1595 | one pass over a dependency order records for every struct its exact recursive size, clipped to 32 bits |
| `FixedSizes.SortAndSize` | bebop/src/bebop_validate.c:1732-1736 | sort and pass together: whenever the definitions are acyclic, every struct gets that size |
| `FixedSizes.OrderRanks` | bebop/src/bebop_validate.c:1732-1736 | the topological order makes the recursive sizes well defined and visits contained structs first |
| `FixedSizes.ExactStructSame` | bebop/src/bebop_validate.c:1570-1595 | the recursive size does not depend on the order that shows it is well defined |
| `Interner.WalkStep` | bebop/src/bebop_str.c:92-104 | a walk along a collision chain moves to a larger index and passes no index of the same string, so it ends |
| `Interner.AppendLinked` | bebop/src/bebop_str.c:117-128 | linking a new string behind the end of its chain keeps all chains increasing and complete |
| `Interner.Interner.Search` | bebop/src/bebop_str.c:87-104 | the chain walk finds the string, or the end of its chain and the string is new |
| `Interner.Interner.Intern` | bebop/src/bebop_str.c:77-131 | an equal string gets the handle it has, a new one the next handle, 0 exactly when too long or out of memory; earlier handles keep their strings |
| `Interner.Interner.Grow` | bebop/src/bebop_str.c:50-75 | growth keeps every handle |
| `Interner.Interner.Get` | bebop/src/bebop_str.c:141-149 | a handle gives its string back, 0 and unknown handles give none |
| `Interner.InternAll` | bebop/src/bebop_str.c:50-149 | over every run and under any hash, two calls return the same handle if and only if the strings are equal, and every handle stands for its string at the end |
| `Integers.ReadInt` | bebop/src/bebop_utils.c:361-414 | the parser of integer literals, with its 64-bit accumulator and overflow flag |
| `Integers.IntegerRead` | bebop/src/bebop_utils.c:361-414 | a decimal or hexadecimal literal is read as the number it denotes if and only if that fits in a signed 64-bit integer |
| `Integers.OnlyLiterals` | bebop/src/bebop_utils.c:361-414 | nothing but a sign and digits of its base up to the end is accepted |
| `Integers.WrapUnnoticed` | bebop/src/bebop_utils.c:322-328 | beyond that the overflow test can fail: 42 followed by 18 zeros is accepted as another number |
| `EnumExpr.ShapedIsSmall` | bebop/src/bebop_parser.c:1391-1404 | the operator stack of a frame is strictly increasing and so holds at most three operators and four operands |
| `EnumExpr.ReduceLoop` | bebop/src/bebop_parser.c:1527-1569 | the reduce loops apply exactly the operators that bind at least as strongly, and an operand is never missing |
| `EnumExpr.ParseExpression` | bebop/src/bebop_parser.c:1423-1588 | on any tokens the explicit-stack loop returns what the recursive evaluation returns, and of its error branches only the one for too many frames and those for bad operands can be taken |
| `EnumExpr.ReduceDisjunction` | bebop/src/bebop_parser.c:1527-1569 | what an expression leaves in its frame reduces to its value: shift binds above and, and above or, each left associative |
| `EnumExpr.EvalUnary` | bebop/src/bebop_parser.c:1437-1510 | one minus sign applies to one operand, also to a group |
| `EnumExpr.ExpressionValue` | bebop/src/bebop_parser.c:1423-1588 | the tokens of every expression evaluate to its grammatical value and are consumed exactly, if and only if its parentheses are nested less than 32 deep; otherwise the evaluation fails |
| `TypeText.SpellingRead` | bebop/src/bebop_parser.c:455-477 | every printed scalar name is read back as the same scalar, aliases notwithstanding |
| `TypeText.EmitType` | bebop/src/bebop_emit.c:518-654 | the explicit-stack printer prints what the recursive rendering with its stack checks says, except that it writes behind its stack exactly when a map is visited where three entries are free |
| `TypeText.PrintedWhole` | bebop/src/bebop_emit.c:518-654 | the whole type is printed if and only if the stack has room for everything pushed, four entries for a map; less otherwise |
| `TypeText.ParseType` | bebop/src/bebop_parser.c:625-851 | on any tokens the explicit-stack parser returns what the recursive parser returns; its check for a full stack never fails |
| `TypeText.ReadName` | bebop/src/bebop_parser.c:687-725 | the loop over a dotted name |
| `TypeText.TextParsed` | bebop/src/bebop_parser.c:625-851 | the text of a type is parsed back to it, and no more is consumed, exactly when the depth limit holds; otherwise parsing fails |
| `TypeText.ParsedLength` | bebop/src/bebop_parser.c:625-851 | a parsed type took as many tokens as its text has |
| `TypeText.PrintThenParse` | bebop/src/bebop_parser.c:625-851 | a type is printed without overrun and its text parsed back to it, all of the text used, if and only if the printer's stack has room and the parser's depth limit holds |
| `TypeText.ShallowRoundTrip` | bebop/src/bebop_emit.c:518-654 | for scalar map keys and at most 64 levels neither limit is reached, and the stack is not overrun |
| `TypeText.LimitsDiffer` | bebop/src/bebop_emit.c:598-624 | the two limits differ: a type of 128 levels that the parser accepts is printed with its innermost part left out |
| `TypeText.AcceptedTypeOverruns` | bebop/src/bebop_emit.c:614-623 | and on a type of 126 levels that the parser accepts the printer overruns its stack: the check for a map allows for three entries and four are pushed |
| `Utf8.DecodeEncode` | bebop/src/bebop_utils.c:5-103 | what is written for a scalar value is read back as it, with the width written, whatever follows |
| `Utf8.EncodeDecode` | bebop/src/bebop_utils.c:5-103 | whatever is read was a scalar value in exactly the bytes it is encoded with: no surrogates, no overlong forms |
| `Utf8.IsValid` | bebop/src/bebop_utils.c:105-117 | the validity loop accepts exactly the concatenations of encoded scalar values |
| `Literals.ReadBracedHex` | bebop/src/bebop_utils.c:169-197 | the loop over the digits of a braced escape |
| `Literals.UnescapeChar` | bebop/src/bebop_utils.c:119-201 | what each escape sequence stands for, and which are refused |
| `Literals.EmitLiteral` | bebop/src/bebop_emit.c:219-337 | the emitter's text for string and bytes contents |
| `Literals.EscapeRead` | bebop/src/bebop_utils.c:119-201 | every escape written for a byte is read back as that byte, in strings and in bytes literals |
| `Literals.ContentsRead` | bebop/src/bebop_scanner.c:347-494 | the text of any contents reads back as those contents and ends after the closing quote, unless another quote follows |
| `Literals.DoubledQuoteGoesOn` | bebop/src/bebop_scanner.c:375-386 | if another quote follows, the literal goes on with a quote in its contents |
| `Literals.CutOffReadsAsClosed` | bebop/src/bebop_scanner.c:372-494 | a literal that the end of the source cuts off reads like one that is closed there |
| `Scanner.Scanner.Advance` | bebop/src/bebop_scanner.c:57-79 | one step over a character, a carriage return and newline pair as one; line and column stay right |
| `Scanner.Scanner.SkipWhitespace` | bebop/src/bebop_scanner.c:135-150 | skips all blanks that stand there into one trivia entry, or adds none |
| `Scanner.Scanner.SkipNewline` | bebop/src/bebop_scanner.c:152-168 | skips one line break into one entry, if there is one |
| `Scanner.Scanner.SkipLineComment` | bebop/src/bebop_scanner.c:170-192 | one entry for a comment up to the next line break or the end, with none inside |
| `Scanner.Scanner.SkipBlockComment` | bebop/src/bebop_scanner.c:194-234 | one entry for a comment up to its first end mark, or to the end of the source without one |
| `Scanner.Scanner.SkipLeadingTrivia` | bebop/src/bebop_scanner.c:236-253 | what is skipped is tiled by trivia that are what their kinds say, and no trivia follow |
| `Scanner.Scanner.SkipTrailingTrivia` | bebop/src/bebop_scanner.c:255-277 | the same up to the first line break: none but the last entry is one |
| `Scanner.Scanner.ScanWord` | bebop/src/bebop_scanner.c:279-298 | the longest run of word characters |
| `Scanner.Scanner.ScanQuoted` | bebop/src/bebop_scanner.c:347-509 | a literal's token has the contents the text stands for; it is an error for a bad escape or a string that is not valid UTF-8 |
| `Scanner.Scanner.ScanToken` | bebop/src/bebop_scanner.c:511-691 | one token from the current position, of the kind and extent its characters call for: the longest word and number, a raw block to its first closing mark; only the end of the source gives the end token |
| `Scanner.Scanner.ScanNext` | bebop/src/bebop_scanner.c:693-714 | leading trivia, token and trailing trivia tile the source between two calls |
| `Scanner.Scanner.ScanAll` | bebop/src/bebop_scanner.c:716-788 | scanning ends, and all spans in stream order tile the source |
| `Scanner.ScanSource` | bebop/src/bebop_scanner.c:716-788 | for every source without NUL the texts of the spans put together are the source, each token has line 1 plus the line breaks before it, and every trivia entry is what its kind says |
| `Scanner.TilesGiveText` | bebop/src/bebop_scanner.c:716-788 | spans that tile a stretch of text have that text |
| `Scanner.EmittedLiteralScanned` | bebop/src/bebop_scanner.c:347-494 | the token for an emitted literal has the original contents: always for bytes, and for strings if and only if they are valid UTF-8 |
| `Calendar.DayToDateAndBack` | bebop/src/bebop_utils.c:821-829 | every day number has a valid date, and the parser's number of that date is the day |
| `Calendar.DateToDayAndBack` | bebop/src/bebop_emit.c:348-363 | every valid date is the date of its day number |
| `Calendar.FollowsTheCalendar` | bebop/src/bebop_utils.c:821-829 | day 0 is 1970-01-01 and the next calendar day has the next number |
| `Timestamp.EmitTimestamp` | bebop/src/bebop_emit.c:346-394 | the emitter's text, with the year converted to int and trailing zeros of the fraction dropped |
| `Timestamp.ScanFraction` | bebop/src/bebop_utils.c:914-936 | the fraction loops of the parser |
| `Timestamp.ReadTimestamp` | bebop/src/bebop_utils.c:831-1021 | the parser with its cursor, zones included |
| `Timestamp.FractionRead` | bebop/src/bebop_utils.c:914-936 | a printed fraction is read back to the same nanoseconds |
| `Timestamp.TextParsedBack` | bebop/src/bebop_utils.c:831-1021 | the text printed for an instant is parsed back to it with offset 0 if and only if its year is 0 to 9999; in other years it is read as another instant if the conversion of the year to int leaves a date of those years, and refused if not |
| `Timestamp.TextRead` | bebop/src/bebop_utils.c:831-1021 | what the parser makes of the text printed for any instant |
| `Timestamp.DistantYearAccepted` | bebop/src/bebop_emit.c:357-363 | the first of March of the year 2^32 + 2024 is read as that of 2024 |
| `Timestamp.DistantLeapDayRefused` | bebop/src/bebop_emit.c:357-363 | the leap day of the year 2^32 + 100 is refused, because it is printed with a year that has none |
| `Duration.EmitDuration` | bebop/src/bebop_emit.c:403-443 | the emitter's text: the parts that are not zero, or zero seconds |
| `Duration.ReadDuration` | bebop/src/bebop_utils.c:1023-1198 | the parser's loop with its 64-bit checks |
| `Duration.PartsTotal` | bebop/src/bebop_emit.c:403-443 | the printed parts add up to the duration |
| `Duration.RepairUnneeded` | bebop/src/bebop_utils.c:1182-1195 | for every total the final sign repair is never taken |
| `Duration.TextParsedBack` | bebop/src/bebop_utils.c:1023-1198 | the text printed for a duration is parsed back to it if and only if its parts agree in sign, its nanoseconds are less than a second, and its total fits a signed 64-bit count of nanoseconds |
| `Duration.TrailingNumberIgnored` | bebop/src/bebop_utils.c:1023-1198 | a number without a unit behind the parts of a duration is ignored |

## Left out

- EnumExpr.ParseExpression: a number token carries the value that `Integers.ParseInt` gives its text. Negating the smallest 64-bit value and shifting bits out of the top, which C leaves undefined for signed integers, wrap around.
- Integers.ReadInt: negating 2^63, which C leaves undefined, gives the smallest 64-bit value.
- TypeText.EmitType: what happens after the write behind the stack is not modelled; the outcome is `Overrun`.
- TypeText.ParseType: works on tokens, not characters; spans, error messages and the parts of a failed result are left out.
- Timestamp.TextParsedBack: the round trip is on the instant only, because the emitter always prints the zone `Z`, and for nanoseconds below a second, which is all the parser makes. The conversion of a 64-bit year to `int` wraps, as implementations define it; adding 1 to the largest `int` does not.
- Duration.TextParsedBack: the negation of the smallest 64-bit second count and of the smallest 32-bit nanosecond count, which overflow in C, are ordinary negations here; such durations are outside the range that is read back.
- SwissTable.HashMap.Grow: a rehash that fails has already replaced the storage in C; the model says that what is left of the map is part of the old one. From more than 128 slots on it is shown to work only within the bound of `MapGrowth.GrowWorksBelow`.
- MessageWriter.Writer.Reserve: a host allocator that moves the buffer is represented by a new value of the buffer.
- Interner.Interner.Search: the table from hashes to first indices is a plain map; its own hashing is not part of this model.
- Interner.Interner.Intern: the 32-bit count of strings and the doubled 32-bit capacity do not wrap.
- Utf8.IsValid: works by division and remainder where the C code masks and shifts; the fields are the same.
- ArenaSafety.RunSafe: sizes are unbounded, so rounding up and `used + size` do not wrap; atomic steps are sequentially consistent, weaker memory orders are not modelled.
- Toposort.EdgeLists.AddEdge: the counters of edges and in-degrees do not wrap at 32 bits; refused memory is a parameter.
- Toposort.Sort: takes dependencies as indices that are already resolved. The name index, in which the first definition of a name wins, and the collection of the dependency names are not part of this model.
- CycleFinder.FindCycle: gives the cycle as a sequence of definitions; its rendering as text is left out.
- Hash functions are arbitrary functions; their quality is not a subject.
- Adjacency lists and the operand stacks of the evaluator's frames are sequences, where C has growing and fixed buffers; the bounds of the latter are proved.
- Reads through NULL arguments, and callers that use an iterator after changing its map.
- The readers and writers of single values and arrays, apart from the little-endian store and load.
- File reading, import resolution, the command line, diagnostics, the language server and the plugin interface: input and output without a deep invariant.
- Lua decorators and generated code: foreign code.
- Paths of the emitter that copy the raw text of a literal: they say nothing about the escape rules.
- Error recovery in the parser, suggestions for misspelt names and the wording of messages.
