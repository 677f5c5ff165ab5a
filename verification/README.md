# MatrixOne: a verified model of roles, files, packets and vector kernels

A Dafny model of four parts of MatrixOne, with proofs of what they are for.

* **Roles and privileges** (`pkg/frontend/authenticate.go`). The graph with its loop check; GRANT ROLE,
  REVOKE ROLE and DROP ROLE on the catalog tables, with their refusals and rollbacks; the searches for what
  a user may pass on; the privilege check with its cache. Main results: the role graph is acyclic after
  every run of statements, a GRANT is refused for a loop exactly when the whole product of its pairs would
  close a cycle, and exactly when the privilege check answers after every history of checks as one role of
  the asker would.
* **File services** (`pkg/fileservice`). The file of blocks with checksums as a flat byte array; the reader
  over scattered entries; the three services, that they agree on what was written, and exactly when they
  agree on gaps; the LRU list with pinned values; the object cache over them, which no history of reads,
  repeated reads, failures and flushes can show as long as entries carry no foreign objects.
* **MySQL framing** (`pkg/frontend/mysql_protocol.go`, `codec.go`). The simple and the buffered packet
  writer, and exactly when they send the same bytes; joining and incremental decoding; length-encoded
  values and text rows.
* **Vector kernels and export** (`cgo`, `pkg/frontend/export.go`). Bitmaps as sets, three-valued logic,
  overflow detection; rows split over files without ever cutting a row.

Objects that the code updates in place are classes whose methods are proved against functions of the old
state; the laws are lemmas about those functions, and invariants over whole histories. The functions
themselves are tied to rows, bytes and truth values by laws that do not name their bodies. All lemmas carry
`{:induction false}`: every induction is written out.

| files | modules |
|---|---|
| `RoleGraph.dfy`, `RoleCatalog.dfy`, `RoleStatements.dfy`, `StatementLaws.dfy` | paths and cycles; the loop check; the statements as a specification and as code; what they do to the rows |
| `RoleSearch.dfy`, `Privileges.dfy`, `PrivilegeAnswers.dfy`, `PrivilegeCheck.dfy`, `PrivilegeLaws.dfy` | grant-option searches; what a privilege is; the check as a function of the cached facts, and what it answers; the check as code; rights in terms of rows |
| `ChecksumFile.dfy` | layout of blocks; the file over it |
| `EntryReader.dfy`, `FileEntries.dfy`, `FileReads.dfy`, `FileWrites.dfy` | the entry reader; what a service makes of an entry; read paths; write paths and round trips |
| `Lru.dfy`, `MemCache.dfy`, `CachedReads.dfy` | the list and its eviction; the object cache; the cache over the read paths |
| `Packets.dfy`, `RowFraming.dfy`, `Protocol.dfy`, `Codec.dfy`, `TextRow.dfy` | cutting and joining; the buffered framer as a function; both framers as code; the decoder; rows |
| `CsvExport.dfy`, `CsvReading.dfy` | splitting an export over files; reading it back |
| `BitOps.dfy`, `Bitmap.dfy`, `Logic.dfy`, `Arith.dfy` | bitwise operations on integers; bitmaps; AND and OR; addition and subtraction |
| `Bytes.dfy`, `Wrappers.dfy` | remainders, little-endian numbers, concatenation; optional values |

## Model

| member | source | states |
|---|---|---|
| RoleGraph.Graph.AddEdge | pkg/frontend/authenticate.go:1710-1718 | the live edges grow by exactly this edge, whose number is returned; adjacency lists and vertexes stay complete |
| RoleGraph.Graph.RemoveEdge | pkg/frontend/authenticate.go:1720-1723 | marks this one edge as removed, and keeps the structure valid |
| RoleGraph.TestEdgeRestored | pkg/frontend/authenticate.go:3125-3132 | adding an edge and removing it again restores the set of live edges, even if the same edge was already there |
| RoleGraph.Graph.Toposort | pkg/frontend/authenticate.go:1730-1747 | false exactly when a loop is met, which is then reachable; otherwise everything reachable is visited and free of loops; vertices under visit all reach the current one; terminates |
| RoleGraph.Graph.HasLoop | pkg/frontend/authenticate.go:1749-1756 | true if and only if some cycle of edges that were not removed is reachable from the start |
| Paths.AcyclicIffNoLoop | pkg/frontend/authenticate.go:1749-1756 | a graph is acyclic if and only if the check fails from every start |
| Paths.ProductAcyclic | pkg/frontend/authenticate.go:3111-3133 | an acyclic graph stays acyclic under all pairs of a product if and only if no second component already reaches a first one |
| RoleCatalog.PairTestsDecideProduct | pkg/frontend/authenticate.go:3111-3133 | testing every pair alone against the old edges passes exactly when the old edges plus the whole product have no cycle |
| RoleCatalog.GrantRefusedIffProductCycles | pkg/frontend/authenticate.go:3111-3208 | with known names and no special role, a GRANT succeeds if and only if old edges plus product are acyclic; a refusal names a loop and changes nothing |
| RoleCatalog.OverwriteEdges | pkg/frontend/authenticate.go:3154-3206 | inserting or updating grant rows adds exactly their edges to the graph |
| RoleCatalog.GrantKeepsAcyclic | pkg/frontend/authenticate.go:2987-3225 | a completed GRANT leaves the role graph acyclic |
| RoleCatalog.NextKeepsAcyclic | pkg/frontend/authenticate.go:2307-3225 | every statement, completed or refused, leaves an acyclic role graph acyclic |
| RoleCatalog.RunsStayAcyclic | pkg/frontend/authenticate.go:2307-3225 | from an empty grant table, the role graph is acyclic at every point of every run of GRANT, REVOKE and DROP |
| RoleStatements.Catalog.LoadGraph | pkg/frontend/authenticate.go:3075-3106 | the graph built from the grant table has exactly the edges of its rows |
| RoleStatements.Catalog.PairTest | pkg/frontend/authenticate.go:3119-3133 | answers whether the pair closes a loop, and leaves the live edges as they were |
| RoleStatements.Catalog.GrantPair | pkg/frontend/authenticate.go:3113-3206 | refused exactly for a special role or a loop, with that reason; otherwise exactly this pair's row is written |
| RoleStatements.Catalog.GrantPairs | pkg/frontend/authenticate.go:3111-3208 | either all pairs pass and the tables hold all of them, or the first failing pair, in loop order, gives the reason |
| RoleStatements.Catalog.GrantRole | pkg/frontend/authenticate.go:2987-3225 | the whole statement meets its specification: unknown names, special roles, loops, rollback on refusal, the rows after success |
| RoleStatements.Catalog.RevokeRole | pkg/frontend/authenticate.go:2820-2951 | the whole statement meets its specification: IF EXISTS, special roles, exactly the named pairs removed |
| RoleStatements.Catalog.DropRole | pkg/frontend/authenticate.go:2307-2380 | the whole statement meets its specification: repeated names, IF EXISTS, protected roles, all rows of the dropped roles removed |
| RoleStatements.Catalog.DeleteRole | pkg/frontend/authenticate.go:1251-1258 | removes the role, its user grants, its role grants in both directions and its privileges, and nothing else |
| RoleStatements.Catalog.Execute | pkg/frontend/authenticate.go:2307-3225 | each statement is a step of the specification and keeps the catalog valid, so that its graph is acyclic |
| RoleStatements.Catalog.ExecuteAll | pkg/frontend/authenticate.go:2307-3225 | a whole session is a run of the specification, acyclic after every statement |
| StatementLaws.GrantWrites | pkg/frontend/authenticate.go:3154-3206 | after a completed GRANT every named pair has exactly one row, with the option of the statement, and all other rows, roles, users and privileges are as before |
| StatementLaws.RevokeDeletes | pkg/frontend/authenticate.go:2921-2932 | a completed REVOKE deletes a row if and only if a named role was granted to a named role, or to a user named by no role; nothing else changes |
| StatementLaws.RevokeUndoesGrant | pkg/frontend/authenticate.go:2820-3225 | a REVOKE of the same names after a GRANT restores the tables, if no named pair had a row before |
| StatementLaws.DropDeletes | pkg/frontend/authenticate.go:1251-1258 | a completed DROP deletes the named roles and exactly the grants and privileges that mention them |
| StatementLaws.SpecialGrantIff | pkg/frontend/authenticate.go:2953-2984 | a pair is refused if and only if the administrator role or public is granted to or gets a role, or the administrator role goes to a user who does not have it |
| StatementLaws.GrantDoneIff | pkg/frontend/authenticate.go:2987-3225 | a GRANT is completed if and only if all names are known, no pair is forbidden, and the role graph with all named pairs is acyclic |
| StatementLaws.RevokeDoneIff | pkg/frontend/authenticate.go:2820-2951 | a REVOKE is completed if and only if all roles are known, all grantees are or are to be skipped, and no pair is forbidden |
| StatementLaws.DropDoneIff | pkg/frontend/authenticate.go:2307-2380 | a DROP is completed if and only if every name is that of a role not yet dropped, or is to be skipped, and none that is dropped is the administrator role or public |
| RoleSearch.SetIsIntersected | pkg/frontend/authenticate.go:4357-4368 | true if and only if the sets share a member |
| RoleSearch.NewGrantees | pkg/frontend/authenticate.go:4188-4220 | exactly the with-grant-option grantees not seen before, which become seen |
| RoleSearch.FindLink | pkg/frontend/authenticate.go:4071-4113 | finds, if and only if there is one, a path of one or more with-grant-option edges to a role in use, looking at newly reached roles only |
| RoleSearch.CanGrantRoles | pkg/frontend/authenticate.go:4020-4118 | true if and only if every named role is in use and granted with option, or linked to a role in use; an unknown name is reported |
| RoleSearch.CanGrantPrivileges | pkg/frontend/authenticate.go:4371-4459 | true if and only if for every privilege some holder with option is in use or linked to a role in use |
| PrivilegeLaws.CanPassOnIff | pkg/frontend/authenticate.go:4020-4118 | a role may be passed on if and only if it is in use and the user has it with grant option, or a chain of rows with grant option leads from it to a role in use |
| PrivilegeLaws.CanPassPrivilegeIff | pkg/frontend/authenticate.go:4371-4459 | a privilege may be passed on if and only if a holder is in use or at the start of such a chain |
| PrivilegeLaws.InheritedIff | pkg/frontend/authenticate.go:3842-3960 | a role is inherited if and only if a chain of grant rows leads to it from the default role, or, with secondary roles, from one granted to the user |
| PrivilegeLaws.TablePrivilege | pkg/frontend/authenticate.go:973-1005 | a role has a privilege on a table if and only if some row has this role, object type and privilege and is one for all tables, for the database by its id, or for the table by its id, at the right level |
| PrivilegeLaws.DatabasePrivilege | pkg/frontend/authenticate.go:1007-1024 | the same for a database, the current one if none is named |
| PrivilegeLaws.AccountPrivilege | pkg/frontend/authenticate.go:1026-1033 | the same for the account |
| PrivilegeLaws.OtherPrivilege | pkg/frontend/authenticate.go:3614-3620 | on anything else nobody has a privilege |
| PrivilegeLaws.UserOkIff | pkg/frontend/authenticate.go:3671-3960 | a set is satisfied if and only if one role of the asker meets all items of one entry, none of which writes to a database of the system |
| PrivilegeLaws.GrantItemAnswer | pkg/frontend/authenticate.go:3755-3775 | the right to grant a role in CREATE USER: when it is refused, and when it is an error |
| Privileges.DroppedHasNothing | pkg/frontend/authenticate.go:1251-1258 | after roles are dropped they have no privilege at any level, and every other role has exactly what it had |
| PrivilegeCheck.Cache.Add | pkg/frontend/authenticate.go:1580-1588 | the facts of the cache grow by exactly the new slot and privilege |
| PrivilegeCheck.Cache.Invalidate | pkg/frontend/authenticate.go:1590-1603 | the cache holds no fact |
| PrivilegeAnswers.SlotIsQuery | pkg/frontend/authenticate.go:1518-1566 | a question at a level is the query of its slot, whatever else it says; for tables at level "*" it is the query of "db.*", which is asked just before |
| PrivilegeAnswers.AfterSound | pkg/frontend/authenticate.go:1488-1600 | after any history of checks every cached fact is one that a query gives for a role of the asker; the slot of tables at level "*" stays empty |
| PrivilegeAnswers.TargetLaw | pkg/frontend/authenticate.go:3686-3718 | a privilege of one role is answered yes if and only if some level is cached or the role has it; an error exactly for unsupported objects; then it is cached, and the cache stays sound |
| PrivilegeCheck.Checker.VerifyTarget | pkg/frontend/authenticate.go:3686-3718 | the loop over the levels has exactly the answer and the cached facts of the specified scan |
| PrivilegeCheck.Checker.VerifyItem | pkg/frontend/authenticate.go:3755-3799 | the same for one item of a compound entry, including the question of passing on a role |
| PrivilegeCheck.Checker.RoleSetHasPrivilegeSet | pkg/frontend/authenticate.go:3671-3814 | the loops over roles in ascending order, entries and items have exactly the specified answer and cached facts |
| PrivilegeAnswers.LevelLaw | pkg/frontend/authenticate.go:3671-3814 | whatever is cached, a no means that every role of the level is rejected as without a cache, and a yes that the facts then cached grant an entry by themselves |
| PrivilegeCheck.Checker.ExpandLevel | pkg/frontend/authenticate.go:3904-3940 | yields exactly the roles inherited from the level and not seen before; no role is expanded twice, so the memo is never hit |
| PrivilegeCheck.Checker.UserHasPrivilegeSet | pkg/frontend/authenticate.go:3818-3960 | terminates, also on cyclic tables; the levels are the closure of the roles in use, level by level; every level before the last was asked and rejected; answer and cached facts are the specified ones |
| PrivilegeAnswers.CheckLaw | pkg/frontend/authenticate.go:3818-3960 | the same for the whole check: a no means that no role in use or inherited satisfies an entry; sets that raise no error are answered; cached facts stay those of roles of the asker |
| PrivilegeAnswers.MyRolesLeastClosed | pkg/frontend/authenticate.go:3842-3960 | the roles in use or inherited are the least set that contains the roles in use and is closed under inheritance |
| PrivilegeAnswers.AnswerBetween | pkg/frontend/authenticate.go:3671-3960 | after any history: if one role satisfies an entry the answer is not no, if it is yes then every item of some entry is held by some role of the asker, and sets that raise no error are answered |
| PrivilegeAnswers.AgreesIff | pkg/frontend/authenticate.go:3671-3960 | every history of checks leads to the answer given by single roles if and only if the set is satisfied by one role whenever it is by roles together |
| PrivilegeAnswers.PooledGranted | pkg/frontend/authenticate.go:3755-3799 | for every set that the roles of the asker satisfy together there is a history of checks after which the answer is yes |
| PrivilegeAnswers.PlainAgrees | pkg/frontend/authenticate.go:3671-3960 | sets with at most one privilege per entry are answered alike after every history |
| PrivilegeAnswers.JoinNotAllowed | pkg/frontend/authenticate.go:3545-3559 | two tables, each readable by another role in use: no role may read both |
| PrivilegeAnswers.JoinGranted | pkg/frontend/authenticate.go:3686-3814 | and the check of both together, with nothing cached before, says yes |
| PrivilegeCheck.Checker.CheckMany | pkg/frontend/authenticate.go:1488-1600 | any sequence of checks on one cache, which starts empty, has the answers and the facts of the specified history |
| PrivilegeAnswers.AnswersBetween | pkg/frontend/authenticate.go:1488-1600 | every answer along every such sequence lies between one role alone and all roles together |
| PrivilegeLaws.SystemNeverGranted | pkg/frontend/authenticate.go:3720-3735 | after any history of checks, a real user who writes to a database of the system in every entry is not told yes |
| ChecksumLayout.Locate | pkg/fileservice/file_with_checksum.go:166-179 | a position inside the content belongs to exactly the block that the offset arithmetic gives, and the end to the block behind the last full one |
| ChecksumLayout.ContentSize | pkg/fileservice/file_with_checksum.go:137-164 | the number of blocks follows from the size of the file by rounding up, so the content size formula is exact |
| ChecksumLayout.BlockWritten | pkg/fileservice/file_with_checksum.go:91-129 | rewriting one block with its checksum is a splice of the content, and leaves a well-formed layout |
| ChecksumLayout.View.OnlyBlock | pkg/fileservice/file_with_checksum.go:91-129 | a block write makes that block good and leaves every other block as good or bad as it was |
| ChecksumLayout.IntactIsChunked | pkg/fileservice/file_with_checksum.go:91-129 | an undamaged file is on disk exactly its content in pieces of the block size, each behind its checksum in four bytes, least significant first |
| ChecksumFile.File.ReadBlock | pkg/fileservice/file_with_checksum.go:181-204 | the content of the block, short exactly at the end; an error exactly if the checksum does not match; nothing behind the end |
| ChecksumFile.File.ReadAt | pkg/fileservice/file_with_checksum.go:59-83 | returns the bytes of the content from the offset on; end of file exactly when the end is reached; a checksum error exactly if a touched block is damaged, with the bytes in front of it |
| ChecksumFile.File.WriteAt | pkg/fileservice/file_with_checksum.go:91-129 | splices the buffer into the content, keeps every good block good, fails exactly if a touched block is damaged |
| ChecksumFile.File.Read | pkg/fileservice/file_with_checksum.go:85-89 | a read at the position, which moves by the bytes read |
| ChecksumFile.File.Write | pkg/fileservice/file_with_checksum.go:131-135 | a write at the position, which moves by the bytes written |
| ChecksumFile.File.Seek | pkg/fileservice/file_with_checksum.go:137-164 | the new position is the target, clamped to the content |
| ChecksumFile.File.Perform | pkg/fileservice/file_with_checksum.go:59-164 | on an undamaged file each operation does what it does on a flat byte array with a position |
| ChecksumFile.File.PerformAll | pkg/fileservice/file_with_checksum.go:59-164 | so does every sequence of operations, with the same results, and the file stays undamaged |
| EntryReader.Reader.Read | pkg/fileservice/io_entry.go:39-100 | fills the buffer with the next bytes of the stream, leaves it alone at holes, keeps the rest of the stream; end or size error exactly when the stream is exhausted |
| EntryReader.ReadToEnd | pkg/fileservice/io_entry.go:39-100 | reading into new memory of any positive lengths terminates with the ending of the stream, and gives its bytes with zeros for the holes |
| EntryReader.EntryShown | pkg/fileservice/io_entry.go:39-100 | every entry of a sorted request without overlaps stands in the stream at its offset |
| EntryReader.ShownIsEntry | pkg/fileservice/io_entry.go:39-100 | whatever is no hole in the stream belongs to an entry |
| EntryReader.SpreadLength | pkg/fileservice/local_fs.go:147-169 | the stream is as long as the end of the last entry |
| EntryReader.EndingIff | pkg/fileservice/io_entry.go:82-86 | the stream ends well if and only if every entry has as many bytes as its size says |
| EntryReader.ReadSpread | pkg/fileservice/io_entry.go:39-100 | the file then ends with the last entry, holds every entry at its offset, and is zero elsewhere |
| FileEntries.FetchSlice | pkg/fileservice/memory_fs.go:168-205 | on a valid range with a buffer no longer than it, every service gets the bytes of the range |
| FileEntries.OutsideFetch | pkg/fileservice/s3_fs.go:482-523 | what each service does with a range that is empty or leaves the file |
| FileEntries.LongFetch | pkg/fileservice/s3_fs.go:584-588 | a buffer longer than the range makes a local read fail, and keeps its tail in the others |
| FileEntries.ReadOneSlice | pkg/fileservice/io_entry.go:102-116 | then success depends only on building the object, and bytes and object do not depend on the service |
| FileEntries.ReadAllLaw | pkg/fileservice/local_fs.go:231-365 | a request succeeds if and only if every entry can be read alone; then every entry is as if read alone, and after a failure each is so or as it was |
| FileReads.ReadFull | pkg/fileservice/local_fs.go:345-355 | exactly the wanted bytes, or an error if the limit or the file is shorter or a touched block is damaged |
| FileReads.ReadRest | pkg/fileservice/local_fs.go:337-342 | all bytes to the end, unless a block from there on is damaged |
| FileReads.LocalFetch | pkg/fileservice/local_fs.go:323-361 | for every offset and size, reading an entry through the blocks gives what the content of the file gives if no block it touches is damaged, and fails otherwise |
| FileReads.LocalRead | pkg/fileservice/local_fs.go:214-369 | succeeds if and only if the file exists, every entry can be read and no block it touches is damaged; an entry never gets other bytes than those of the content; of an undamaged file the outcome is the specified one, entries after a failure included |
| FileReads.Span | pkg/fileservice/s3_fs.go:387-405 | the range covers every entry that is not ignored, and is open-ended if one of them is |
| FileReads.CarveFetches | pkg/fileservice/s3_fs.go:408-523 | carving an entry out of the one requested range, whose last byte is cut off, is reading it from the object |
| FileReads.S3Read | pkg/fileservice/s3_fs.go:378-600 | has exactly the specified outcome, entries after a failure included |
| FileReads.MemoryRead | pkg/fileservice/memory_fs.go:145-215 | the same for the file in memory, with ranges up to the capacity of its slice |
| FileWrites.SortByOffset | pkg/fileservice/local_fs.go:142-145 | a permutation of the entries, sorted by offset |
| FileWrites.SortedTiles | pkg/fileservice/local_fs.go:142-145 | sorting a request without gaps puts it in the order in which it tiles the file |
| FileWrites.WrittenOnce | pkg/fileservice/file_service.go:60-76 | a request without gaps describes exactly one file |
| FileWrites.CopyAll | pkg/fileservice/local_fs.go:162-166 | the file gets the stream through one reused buffer: every byte of every entry, and in a hole the byte that was written one buffer before, or zero in the first buffer |
| FileWrites.CopiedZeroIff | pkg/fileservice/local_fs.go:162-166 | such a copy has zeros in all holes if and only if no byte other than zero lies one buffer in front of a hole |
| FileWrites.GapsZeroIff | pkg/fileservice/file_service.go:64-66 | for sorted entries without overlaps: a local file has zeros in its gaps, and so equals the stored object, if and only if whatever lies one buffer behind a byte other than zero belongs to an entry or behind the end |
| FileWrites.GapRepeats | pkg/fileservice/file_service.go:64-66 | a byte, a gap of one buffer and a byte: written without error, and the gap ends with the first byte |
| FileWrites.LocalWrite | pkg/fileservice/local_fs.go:135-169 | succeeds if and only if the stream ends well where the last entry ends; then all blocks are good and the content is the copied stream, gaps included |
| FileWrites.WhatIsWritable | pkg/fileservice/local_fs.go:162-169 | sorted entries without overlaps are written; a request with data of another size than stated is not |
| FileWrites.S3Write | pkg/fileservice/s3_fs.go:316-356 | the same for the body of the object, with zeros in all gaps |
| FileWrites.MemoryWrite | pkg/fileservice/memory_fs.go:110-143 | the same for the file in memory, for which an empty request writes an empty file |
| FileWrites.LocalRoundTrip | pkg/fileservice/local_fs.go:135-369 | a request without gaps, written and read back through the checksum blocks, delivers the bytes of every valid range and the object built from them |
| FileWrites.S3RoundTrip | pkg/fileservice/s3_fs.go:316-600 | the same through one object and one range |
| FileWrites.MemoryRoundTrip | pkg/fileservice/memory_fs.go:110-215 | the same in memory, with the same condition and the same result |
| LruSpec.EvictKeepsPinned | pkg/fileservice/lru.go:73-107 | pinned items survive in order; what is left fits or is all pinned; nothing goes when all fits |
| LruSpec.OldestGoFirst | pkg/fileservice/lru.go:73-107 | if an unpinned item stays, so does every more recently used one |
| LruSpec.NoneBeyondNeed | pkg/fileservice/lru.go:73-107 | every way to keep more items in order of use exceeds the capacity |
| LruSpec.EvictOne | pkg/fileservice/lru.go:82-104 | removing the last unpinned item leaves what the next lower level keeps, and all levels above stay too large |
| Lru.LRU.Set | pkg/fileservice/lru.go:44-71 | the item goes to the front, replacing the one under its key, and the rest is what eviction leaves; list and map stay in step and the size exact |
| Lru.LRU.EvictSome | pkg/fileservice/lru.go:73-107 | terminates with what eviction is specified to leave |
| Lru.LRU.Get | pkg/fileservice/lru.go:109-118 | finds what the list holds under the key, and moves it to the front |
| Lru.LRU.Flush | pkg/fileservice/lru.go:120-126 | empties list, map and size |
| Lru.LinkedMeans | pkg/fileservice/lru.go:44-71 | the map leads from every key of the list, and no other, to its item |
| Lru.LRU.PerformAll | pkg/fileservice/lru.go:44-126 | any history of calls leaves the list the history determines, whatever is pinned at each call |
| Lru.RunFaithful | pkg/fileservice/lru.go:44-126 | after any history the list is ordered by last use, and every item holds what was last set under its key since the last flush |
| LruSpec.SumOne | pkg/fileservice/lru.go:44-71 | the size of a list is the sum of the sizes of its items |
| MemCache.PlainRead | pkg/fileservice/mem_cache.go:36-99 | reading without a cache leaves an honest entry with no object or with the one that the bytes of its key give, and with that one wherever it is wanted and there can be one |
| MemCache.HonestIff | pkg/fileservice/mem_cache.go:84-92 | what a successful read leaves to be cached is the object of its bytes if and only if the entry carried no object, one that the read replaces, or that very object |
| MemCache.BufferIff | pkg/fileservice/local_fs.go:345-355 | the service alone builds a wanted object from exactly the bytes of its range, for every way of building objects, if and only if the buffer is no longer than a positive size; locally and from S3 |
| MemCache.LookedUpRead | pkg/fileservice/mem_cache.go:54-78 | an entry after the look-up can be read exactly when the entry itself can, with the same object, and what is left of it may be handed in again |
| MemCache.ReadTransparent | pkg/fileservice/mem_cache.go:36-99 | a read through the cache succeeds if and only if the service alone would, and then every entry has the object the service alone leaves and is not ignored; whether it succeeds or fails, only genuine objects are cached and the entries may be handed in again |
| MemCache.Cache.Read | pkg/fileservice/mem_cache.go:36-99 | answer, entries, list and statistics are the specified ones for every vector and every service: look up every wanted key, read, and after a success that wants objects set every new one; after a failure flags stay set |
| MemCache.Cache.LookUp | pkg/fileservice/mem_cache.go:54-74 | an entry gets an object, and is set to be ignored, if and only if it wants one and its key is in the list, whose order records the look-ups |
| MemCache.Cache.Store | pkg/fileservice/mem_cache.go:84-96 | exactly the new objects are set, in order, and no entry stays ignored |
| MemCache.LookupTouched | pkg/fileservice/lru.go:109-118 | looking keys up does not change what later look-ups find |
| MemCache.Cache.Flush | pkg/fileservice/mem_cache.go:101-103 | empties the cache |
| MemCache.Cache.PerformAll | pkg/fileservice/mem_cache.go:36-103 | any history of reads of any vectors, again and again, and of flushes leaves the specified list, vectors and answers |
| MemCache.RunTransparent | pkg/fileservice/mem_cache.go:36-103 | along every such history, with failures and retries and whatever is evicted, every read answers as the service alone would |
| MemCache.AgainSame | pkg/fileservice/caching_file_service_test.go:82-89 | a vector that was read is read again, with any other list, with the same objects |
| MemCache.HitsCounted | pkg/fileservice/mem_cache.go:67-73 | the hits counted are the entries that want an object and find one |
| MemCache.SecondReadHits | pkg/fileservice/caching_file_service_test.go:82-93 | an object that fits is cached by the read that builds it, so that reading again hits and does not read the file |
| MemCache.CarriedServed | pkg/fileservice/mem_cache.go:84-92 | an entry without ToObject that carries an object, next to one with ToObject, has its object cached, and later reads of its range get it |
| MemCache.ForeignObject | pkg/fileservice/mem_cache.go:84-92 | so for the bytes 7 and 8 an object 9 is served where the service alone builds 7 |
| CachedReads.CachedLocalRead | pkg/fileservice/local_fs.go:196-212 | cache, checksum blocks and file together: of an undamaged file a read succeeds if and only if the content gives every entry; damaged or not, what is delivered, now or later from the cache, is what the content gives; an empty vector is refused |
| CachedReads.CachedS3Read | pkg/fileservice/s3_fs.go:358-376 | the same for an object of the store |
| Packets.SplitShape | pkg/frontend/mysql_protocol.go:2468-2515 | a payload is cut into full packets and one shorter last packet, empty if need be, with consecutive ids |
| Packets.SplitJoin | pkg/frontend/routine_manager.go:196-216 | joining until a packet is short returns the payload and what follows it |
| Packets.ParseEncode | pkg/frontend/mysql_protocol.go:2468-2515 | an encoded packet is parsed back, with the bytes behind it |
| Packets.EncodeBytes | pkg/frontend/mysql_protocol.go:2468-2515 | the length in three bytes, the id in the fourth, and the payload behind them |
| Packets.EncodeInjective | pkg/frontend/mysql_protocol.go:2468-2515 | different packets have different bytes |
| RowFraming.FillSegments | pkg/frontend/mysql_protocol.go:2219-2312 | from any point of a row on, what is sent in the end is one payload per segment, a segment ending where whole appends reach a multiple of the packet size |
| RowFraming.ClientGetsSegments | pkg/frontend/mysql_protocol.go:2154-2312 | a client joins the packets of a row into its segments, with nothing left over |
| RowFraming.OneSegment | pkg/frontend/mysql_protocol.go:2219-2273 | the row is one segment if and only if no proper prefix of whole appends has a multiple of the packet size as its length |
| RowFraming.BufferedAgreesIff | pkg/frontend/mysql_protocol.go:2154-2312 | the buffered writer sends the packets of the simple one if and only if the row is nonempty and has no such prefix |
| RowFraming.WireAgreesIff | pkg/frontend/mysql_protocol.go:2154-2515 | the same for the bytes on the wire |
| RowFraming.RowNumbered | pkg/frontend/mysql_protocol.go:2219-2312 | whatever rows are sent, their packets are numbered consecutively modulo 256 |
| Protocol.Connection.WritePackets | pkg/frontend/mysql_protocol.go:2468-2515 | sends the packets the payload is cut into, with ids from the connection's |
| Protocol.Connection.OpenPacket | pkg/frontend/mysql_protocol.go:2199-2217 | opens an empty packet without changing what was sent |
| Protocol.Connection.FillPacket | pkg/frontend/mysql_protocol.go:2219-2273 | one append does to the buffer what it does to the specified state, whatever its length |
| Protocol.Connection.ClosePacket | pkg/frontend/mysql_protocol.go:2275-2312 | writes the header in place and, behind a full last packet, an empty one |
| Protocol.Connection.FlushOutBuffer | pkg/frontend/mysql_protocol.go:2180-2197 | moves bytes to the network without changing the stream; only ever with no packet open |
| Protocol.Connection.CloseRow | pkg/frontend/mysql_protocol.go:2162-2178 | ends the row and leaves no packet open |
| Protocol.Connection.SendRow | pkg/frontend/mysql_protocol.go:2154-2312 | the bytes sent for a row are a function of its appends and the id, whenever the buffer is flushed |
| Codec.ByteBuf.Decode | pkg/frontend/codec.go:41-70 | takes one packet off the unread bytes if a whole one is there, with the length, signed sequence id and payload that these bytes show, and otherwise leaves them |
| Codec.FrontShows | pkg/frontend/codec.go:41-70 | byte by byte: more is needed, the length is 0, or the packet has the length of the first three bytes, the fourth byte as a signed sequence id, and the payload behind them |
| Codec.ShowsOne | pkg/frontend/codec.go:41-70 | at most one outcome is right for given bytes |
| Codec.DecodeOn | pkg/frontend/codec.go:41-70 | decoding a stream in two pieces gives what decoding it at once gives |
| Codec.FeedChunks | pkg/frontend/codec.go:41-70 | however a stream is cut into chunks, the decoder yields the same packets and stops at the same error |
| Codec.DecodeEncoded | pkg/frontend/codec.go:41-70 | packets with nonempty payloads are decoded one by one |
| Codec.ReceivedAt | pkg/frontend/codec.go:52-68 | each packet is received with its payload, its length and its id modulo 256 |
| Codec.DecoderReadsBack | pkg/frontend/codec.go:41-70 | what the simple writer sends is decoded in full if and only if the length is no multiple of the packet size; otherwise the decoder stops at the empty last packet |
| LenEnc.WriteInt | pkg/frontend/mysql_protocol.go:817-847 | writes exactly the encoding, and nothing outside it |
| LenEnc.IntRoundTrip | pkg/frontend/mysql_protocol.go:771-853 | every 64-bit integer is read back, and reading ends where writing ended |
| LenEnc.NeverNull | pkg/frontend/mysql_protocol.go:817-847 | no encoding starts with the byte that stands for NULL |
| LenEnc.EncodeShape | pkg/frontend/mysql_protocol.go:817-847 | the length and the first byte of every class of values, and the value in the other bytes |
| LenEnc.StringRoundTrip | pkg/frontend/mysql_protocol.go:922-950 | every string is read back from anywhere in the data |
| LenEnc.ReadStringIff | pkg/frontend/mysql_protocol.go:922-934 | a string is read if and only if its length is and its bytes are all there; reading panics exactly if its end, as a number, is beyond 2^63 |
| TextRow.AppendsMakeRow | pkg/frontend/mysql_protocol.go:1964-2083 | the appends a row makes, put together, are its bytes |
| TextRow.RowBytesAre | pkg/frontend/mysql_protocol.go:1964-2083 | the bytes of a row are those of its columns in order: 251 for NULL, otherwise the length and the bytes |
| TextRow.RowRoundTrip | pkg/frontend/mysql_protocol.go:1964-2083 | any row of NULLs and strings, anywhere in the data, decodes to itself |
| TextRow.RowsDistinct | pkg/frontend/mysql_protocol.go:1964-2083 | rows with as many columns and the same bytes are equal |
| TextRow.RowDelivered | pkg/frontend/mysql_protocol.go:1964-2312 | a row sent through the buffered writer reaches the client as one payload, which decodes to it, if and only if no prefix of whole appends inside it has a multiple of the packet size as its length |
| TextRow.ShortRowDelivered | pkg/frontend/mysql_protocol.go:1964-2312 | in particular every row shorter than a packet |
| TextRow.RowNotDelivered | pkg/frontend/mysql_protocol.go:2219-2312 | a string four bytes shorter than the largest packet, with a NULL behind it, is a row that is not delivered as one payload |
| CsvExport.Exporter.WriteData | pkg/frontend/export.go:206-217 | the bytes go behind those of the current file, and both sizes grow with them |
| CsvExport.Exporter.Put | pkg/frontend/export.go:168-204 | fails exactly if the limit is exceeded in a file without a finished row, or the next file cannot be created; otherwise finished rows stay, and the line continues here or moves to a new file |
| CsvExport.Exporter.SwitchFile | pkg/frontend/export.go:168-199 | cuts the unfinished line off the current file and starts the next file with it; finished rows are kept |
| CsvExport.Exporter.OpenNew | pkg/frontend/export.go:77-112 | the new file holds exactly the unfinished line |
| CsvExport.Exporter.FormatField | pkg/frontend/export.go:122-141 | appends the field's text, enclosed if asked for, and its symbol to the line |
| CsvExport.Exporter.ExportRow | pkg/frontend/export.go:240-401 | adds exactly this row's text to the finished rows; succeeds if the row fits a file |
| CsvExport.Exporter.ExportAll | pkg/frontend/export.go:77-399 | after any number of rows each file is made of whole rows, and the files in order hold all rows in order; succeeds if every row fits a file |
| CsvExport.AddEscape | pkg/frontend/export.go:219-238 | the two loops double every quote |
| CsvExport.QuotedReadsBack | pkg/frontend/export.go:219-238 | an escaped string in quotes is read back, up to its closing quote |
| CsvExport.FieldReadsBackIff | pkg/frontend/export.go:122-141 | an exported string field reads back, up to its symbol, if and only if fields are enclosed in quotes or the string has neither the enclosing byte nor a quote |
| CsvReading.RowTextAppend | pkg/frontend/export.go:246-391 | the text of a row is that of all its fields, in order |
| CsvReading.RowTextOne | pkg/frontend/export.go:122-141 | the text of a field: enclosed if it is to be, and what separates it from the next |
| CsvReading.HoldsCuts | pkg/frontend/export.go:168-204 | the files of an export are cut between rows: each holds the rows from one cut to the next |
| CsvReading.RowReadsBack | pkg/frontend/export.go:240-391 | under the condition on the enclosing byte, an exported row of strings reads back to all its columns in order |
| CsvReading.ExportReadsBack | pkg/frontend/export.go:77-399 | so does the whole table, from all files of the export together |
| BitOps.BitAnd | cgo/bitmap.h:48-58 | a bit of a conjunction is set if it is set in both operands |
| BitOps.BitXor | cgo/arith.c:29-31 | a bit of an exclusive or is set if it is set in exactly one operand |
| BitOps.XorSign | cgo/arith.c:29-37 | an exclusive or is negative if exactly one operand is |
| Bitmap.Contains | cgo/bitmap.h:39-50 | the masked word tells whether the position is in the set |
| Bitmap.TestIs | cgo/bitmap.h:30-50 | position 64 i + k is bit k of word i, counted from the least significant one |
| Bitmap.Set | cgo/bitmap.h:52-54 | adds exactly this position |
| Bitmap.Clear | cgo/bitmap.h:56-58 | removes exactly this position |
| Bitmap.AndAll | cgo/bitmap.h:72-77 | intersection of the positions below the limit, also in place |
| Bitmap.OrAll | cgo/bitmap.h:78-83 | union, also in place |
| Bitmap.NotAll | cgo/bitmap.h:85-90 | complement, also in place |
| Bitmap.LastMaskIs | cgo/bitmap.h:92-99 | the mask of the last word covers exactly its bits, also for multiples of 64, where doubling overflows |
| Bitmap.Count | cgo/bitmap.h:101-113 | the exact number of positions below the limit |
| Bitmap.Empty | cgo/bitmap.h:115-131 | true if and only if there is none |
| Logic.Settle | cgo/logic.c:59-90 | clears the null bit of exactly those rows that the other operand decides |
| Logic.VecAnd | cgo/logic.c:33-92 | if the result's nulls start as the union, every row is true, or false, exactly where the AND is so for all truth values that the nulls may stand for, and null otherwise; for vectors and scalars, with any bitmap missing |
| Logic.VecOr | cgo/logic.c:108-167 | the same for OR |
| Logic.TableDecides | cgo/logic.c:59-90 | the tables of three-valued AND and OR are what the operands force, whatever their nulls stand for |
| Operands.ModeOfFlags | cgo/logic.c:38-59 | the lowest flag bit makes the left operand a scalar, the next one the right operand |
| Arith.FlagMeans | cgo/arith.c:29-94 | a row raises the flag exactly when its exact result does not fit, and never lowers it; a result that fits is stored exactly |
| Arith.FlagFits | cgo/arith.c:226 | the flag fits the machine type, so that storing it loses nothing; the loop keeps this |
| Arith.ExactAtIs | cgo/arith.c:222-264 | which values a row combines, in all scalar modes |
| Arith.VecOp | cgo/arith.c:222-264 | out of range if and only if some row that is not null does not fit; otherwise these rows are exact; null rows are untouched, in all scalar modes |
| Arith.Vec | cgo/arith.c:316-391 | the same for the types of 1, 2, 4 and 8 bytes; any other size is an invalid argument |

## Where code and documentation differ

* `file_service.go` says that gaps between written entries are zero-filled. The reader skips them without
  writing, so what they hold is what the buffer held. The stores read into new memory and do zero-fill; a
  local write goes through one buffer again and again, and repeats in a gap what was written one buffer
  before. `FileWrites.GapsZeroIff` gives the exact condition for zeros, `FileWrites.GapRepeats` a request
  that fails it.
* `file_service.go` says that a buffer is replaced if it is shorter than the size. A longer one makes a
  local read fail, while the other services fill its front; `FileEntries.Fetch` models each, and
  `MemCache.BufferIff` shows what that means under the cache.
* The object cache stores whatever object an entry carries after a read, also one that the read did not
  build. `MemCache.HonestIff` gives the exact condition under which only objects of their bytes are stored,
  and `MemCache.ForeignObject` an input that fails it.
* The items of a compound privilege entry take effect together, says `authenticate.go:3545`, and are checked
  role by role; but the cache that the check asks first is not kept by role. `PrivilegeAnswers.AgreesIff`
  gives the exact condition under which that makes no difference, `PrivilegeAnswers.JoinGranted` an input
  that fails it.
* Quotes in exported strings are doubled whatever byte encloses the field; `CsvExport.FieldReadsBackIff`
  gives the exact condition for reading back.
* The MySQL protocol documentation ends a payload whose length is a multiple of the packet size with an
  empty packet, and the writers send it. The decoder refuses packets of length 0;
  `Codec.DecoderReadsBack` gives the exact condition.
* A buffered row that reaches a multiple of the packet size between two appends is closed there, and so
  arrives as more than one payload; `RowFraming.BufferedAgreesIff` gives the exact condition.

## Left out

- ChecksumFile.File.ReadAt: the rest of the caller's buffer is not part of the result; offsets beyond the content are excluded. There the source reports the end of the file at a multiple of the block size, and fails in slicing elsewhere.
- ChecksumFile.File.WriteAt: offsets beyond the end of the content are excluded. At a multiple of the block size the source writes there and leaves blocks with wrong checksums in between; elsewhere it fails in slicing.
- FileWrites.S3Write: a body whose length differs from the announced one is taken to be refused by the store.
- FileReads.LocalRead: offsets are not negative, as the entry's documentation asks; error values are reduced to failure; a failed read may have overwritten a buffer that the caller handed in, which is not described.
- MemCache.Cache.Read: calls do not overlap in time; entries that share one buffer are not described.
- Lru.LRU.Set: list elements are values rather than linked nodes, and the 64-bit sum of sizes does not overflow.
- CsvExport.Exporter.ExportAll: no bound on file sizes is claimed, as a moved line is written without a second check; the header and the texts of the column types are left out.
- Arith.VecOp: one loop with the operand chosen by mode stands for the six loops; operands are values, so a result vector that is also an operand is not described; signed overflow wraps around, as the compiled code relies on.
- Logic.VecAnd: the result's bitmap is not one of the operands', and scalar operands are not null, as callers arrange.
- Logic.VecOr: the same.
- Integer multiplication, division, remainder and floating point in `cgo/arith.c`; `Logic_VecXor`, whose right-scalar branch is constant.
- Streams in and out of file services (writers, read closers, readers), deletion, listing, and the mutable files.
- Locks, cancellation and failures of the operating system, the network or SQL; each statement is atomic.
- SQL texts, and names other than as exact strings; account, user and privilege statements; handshake and passwords.
- Binary result rows, `pkg/compare`, `cgo/decimal.c` and LOAD DATA.
- The checksum function, object construction, reference counts and the creation of files are parameters.
