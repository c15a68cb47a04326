# Kind: model and proofs

Kind is an in-memory key-value server. One logical map lives in several places: the ordered tree of
records, the secondary indexes, a cache, the write-ahead log, the snapshot file and the replicas.
This project models the server and proves when those places agree, for all runs, interleavings,
streams, crashes and texts.

| module | models |
|---|---|
| `LruSpec`, `LruCache`, `LfuCache`, `FifoCache` | the three caches of `src/cache.rs` |
| `Ast`, `Lexer`, `Parser`, `Printer`, `Registry` | the Kind Schema Language: lexer, parser, a printer defined here, the registry and validation |
| `Lexemes`, `Grammar`, `Loading`, `Violations` | the same without naming the program: which pieces a text falls into, what the grammar accepts, what loading leaves, which violation is reported |
| `Store` | records, expiry, log commands, and the tree that a log describes |
| `Wal`, `WalReading`, `WalCodec`, `WalBytes` | the log file as characters and as bytes: writing, reading, older logs, crashes |
| `Indexes`, `Server`, `KindServer` | the server's steps, on values and as a class that works in place |
| `History`, `IndexRuns`, `StaleRuns`, `CacheRuns`, `CommitOrder` | invariants of whole runs; the order within a commit |
| `Query`, `QueryRuns` | scans and queries, after runs with and without evictions |
| `Restart`, `RestartVersions`, `RestartIndexes`, `Lifetimes` | snapshot load and log replay; versions and indexes after it; repeated restarts |
| `Replica`, `Sync`, `Replication` | the follower, one sync round, and both sides over their whole common life |
| `Concurrency`, `PlainWrites` | clients interleaved at every access to shared state: CAS and commit alone, and with puts, deletes, evictions and snapshots |
| `CasRaces`, `KeyGuard`, `SnapshotRaces`, `EvictRaces`, `Races` | exactly what those do to each other, what keeps a key safe, and schedules in which it is not |
| `Prelude`, `Ordered` | options, results, and the order of keys |

`Server.Run` executes a sequence of events (puts, deletes, CAS, commits, gets, sweeps, snapshots), each
with its clock reading, from the empty server. `Timely` runs have a clock that does not go back.
`Store.View` is what clients can see of a tree at a given time: values and expiry of unexpired records.
`Store.Trails(t, t', now)` says that `t` is `t'` less some records expired at `now`. The methods of
`KindServer` are proved to perform the steps of `Server`; the theorems are about those steps.

Reading order: `Store`, `Server`, `History`, then any of the others.

## Where the code departs from what is promised

The model follows the code. Each departure has the exact condition under which the code meets the
promise, and a witness run, schedule or input for which it does not.

| promise | what the code does | exactly when | witness |
|---|---|---|---|
| reads answer as the tree does | a put with a TTL over a cached key leaves the old value in the cache for good | `RunTransparent` | `StaleRead` |
| an index holds the records that match | CAS over an expired record leaves the old value indexed | `RunExact` | `StaleEntryExists` |
| | so does replay of a put over a put, after any restart | `RebuildExact` | `RestartLeavesStale` |
| | so does a snapshot chunk at a follower | `ReceiveIndexes` | `ChunkLeavesStale` |
| transactions abort when a key of theirs has changed | a key that was written and then removed is not noticed | `ConflictExact` | `ConflictCheckMissesRemovedKeys` |
| evictions cannot be noticed | a commit can fail because of an expired record and succeed after a sweep; `delete` answers differently | `EvictionUnobservable`, `SweepChangesVerdict`, `DeleteTellsEvicted` | `SweepNoticed` |
| | a query can: without the sweep a CAS leaves the expired value indexed | `EvictionsInQueries` | `SweepSeenByQuery` |
| | so can a query with a limit, as expired keys take up places on the page | `EvictionsInPages` | `SweepSeenByPage` |
| restart restores the data | replay skips expired puts and so brings back the value they replaced | `RestartAgrees`, `LifeDurable` | `RestartResurrects` |
| versions increase | after a snapshot, a restart may hand out ids again | `RestartVersion` | `RestartReusesIds` |
| a new transaction starts without conflicts | replay stamps the records of a transaction one above the version counter | `ReplayConflict`, `SpuriousConflict` | `SpuriousAfterCommit`, `SpuriousAfterSnapshot` |
| a torn write is skipped safely | the next append continues the torn line, and both records are lost | `AppendAfterCrash` | `RestartLosesBoth` |
| | a cut inside a character makes the reader give up, and the whole log is dropped | `CrashBytes` | `TornCharacter`, `FirstByteTears` |
| a snapshot brings a replica up to date | chunks never remove a key, so deleted keys survive | `SyncConverges`, `FollowerShows` | `StaleKeySurvives` |
| replication is strictly sequential | a replica at version 0 accepts any record first | `FirstRecordAtZero`, `FollowerShows` | `SkipsFirstRecord` |
| concurrent writes do not corrupt data | puts may be inserted in another order than they were logged | `TreeMatchesLog`; guaranteed by `KeyAgrees` | `PutRace` |
| CAS is linearizable | a put, delete or eviction between the check and the insertion of a CAS goes unnoticed, and its value is lost | `CasAmongOthers`; guaranteed by `ExclusiveCas` | `LostUpdate` |
| the first committer wins | a put between the check and the insertion of a commit goes unnoticed | `CommitAmongOthers` | `MissedConflict` |
| an acknowledged write is durable | a snapshot between the log and the insertion of a put holds neither | `SnapshotExact` | `LostPut` |
| eviction removes expired records | a get that found a record expired removes what was stored since | `EvictAmongOthers` | `FreshEvicted` |
| log ids are consecutive | puts may be logged in another order than they took their ids | `IdsInOrder` | `IdRace` |
| a write that violates the schema is rejected | no write calls `validate`, which also ignores the width of integers | `ValidateExact` says what it would accept | `InvalidWriteAccepted`, `WidthIgnored` |

## Model

| member | source | states |
|---|---|---|
| LruCache.LruCache.constructor | src/cache.rs:33-46 | an empty valid cache of positive capacity |
| LruCache.LruCache.RemoveNode | src/cache.rs:50-68 | patching the two neighbours leaves exactly the list without that slot, head and tail included; keys and values untouched |
| LruCache.LruCache.LinkFront | src/cache.rs:76-86 | the slot becomes the first of the list |
| LruCache.LruCache.MoveToFront | src/cache.rs:70-87 | the entry moves to the front, the others keep their order |
| LruCache.LruCache.Get | src/cache.rs:91-99 | answers with the entry's value and makes it the most recent |
| LruCache.LruCache.Put | src/cache.rs:101-139 | the recency sequence becomes the new entry followed by the others, cut to capacity; live slots are exactly the map's values, free slots exactly the rest, the slab stays within capacity |
| LruCache.LruCache.Overwrite | src/cache.rs:103-107 | a present key gets the new value in front; nothing is evicted |
| LruCache.LruCache.EvictTail | src/cache.rs:109-116 | exactly the last entry goes |
| LruCache.LruCache.TakeSlot | src/cache.rs:118-125 | the slot is outside the list, and live slots keep their nodes |
| LruCache.LruCache.Insert | src/cache.rs:118-138 | one new first entry, the others unchanged |
| LruCache.LruCache.Free | src/cache.rs:141-147 | the entry leaves list and map and its slot becomes free |
| LruCache.LruCache.Invalidate | src/cache.rs:141-147 | exactly the entry of that key is removed, if there is one |
| LruCache.ChainInverse | src/cache.rs:50-87 | `next` and `prev` are mutually inverse along the list |
| LruCache.ChainBypass | src/cache.rs:50-68 | redirecting the links around a slot yields the chain of the remaining slots |
| LruCache.StoredFrame | src/cache.rs:118-127 | storing a node in a slot outside the list disturbs neither list nor entries |
| LruSpec.RecencyOrder | src/cache.rs:91-147 | after any trace: distinct keys, at most capacity many, ordered by last touch, each with the value last put; so the evicted key is the least recently touched |
| LruSpec.PutExact | src/cache.rs:101-139 | an insertion costs exactly the last entry when a new key comes to a full cache, and no entry otherwise |
| LruSpec.RoomForAll | src/cache.rs:91-147 | a cache with room for all keys ever put forgets nothing: each key has the value last put and not invalidated since |
| LruSpec.Inclusion | src/cache.rs:91-147 | on the same trace of put, invalidate and get-then-put-on-miss, the keys of a smaller cache are a prefix of those of a larger one |
| LruSpec.BareReadInclusion | src/cache.rs:91-99 | a get that is not followed by a put keeps inclusion exactly when it hits in the smaller cache, misses in the larger, or the smaller is empty |
| LfuCache.LfuCache.IncrementFreq | src/cache.rs:176-189 | the key's frequency grows by one and the buckets still partition the keys, none empty |
| LfuCache.LfuCache.Get | src/cache.rs:193-202 | answers with the value and counts a hit; each frequency stays one plus the hits since insertion |
| LfuCache.LfuCache.Put | src/cache.rs:204-229 | overwriting counts as a hit; a new key starts at one, evicting a key of minimum frequency when full |
| LfuCache.LfuCache.Evict | src/cache.rs:213-225 | removes a key no other key is less frequent than, and nothing else |
| LfuCache.LfuCache.Invalidate | src/cache.rs:231-241 | exactly that key goes, and its bucket if it becomes empty |
| LfuCache.FirstKey | src/cache.rs:214 | the first bucket is the one of least frequency |
| LfuCache.TallyHit | src/cache.rs:176-189 | a hit keeps each stored frequency one plus the hits since the key's latest insertion |
| LfuCache.TallyInsert | src/cache.rs:227-228 | so does an insertion, which starts the count again |
| LfuCache.UnbucketKeeps | src/cache.rs:176-182 | taking a key out of its bucket, and the bucket away when empty, keeps the partition |
| LfuCache.BucketKeeps | src/cache.rs:184-188 | filing a key under its frequency keeps the partition |
| FifoCache.FifoCache.Put | src/cache.rs:275-290 | a present key keeps its place; a new one goes last after the oldest is dropped when full; other values unchanged |
| FifoCache.PutOrderExact | src/cache.rs:275-290 | the keys after an insertion: all, but for the oldest when a new key comes to a full cache |
| FifoCache.FifoCache.MakeRoom | src/cache.rs:282-286 | the loop terminates and drops just enough keys from the front |
| FifoCache.FifoCache.Invalidate | src/cache.rs:292-297 | the key leaves map and queue, the others keep their order |
| FifoCache.QueuedWithout | src/cache.rs:292-297 | queue and map keep holding the same keys, each once |
| Lexer.Lexer.Scan | src/schema/parser.rs:30-34 | stops right after the longest run of matching characters |
| Lexer.Lexer.StringToken | src/schema/parser.rs:63-74 | the literal ends at the next quote, or at the end of the text when there is none |
| Lexer.Lexer.AnnotationToken | src/schema/parser.rs:81-94 | the two known annotations are tokens, any other is consumed without one |
| Lexer.Lexer.WordToken | src/schema/parser.rs:95-111 | the longest word, a keyword or an identifier |
| Lexer.Lexer.NextToken | src/schema/parser.rs:36-117 | the next token of the specification; the position only advances |
| Lexer.SpanFacts | src/schema/parser.rs:30-34 | a span matches everywhere and is maximal |
| Lexemes.LexesPieces | src/schema/parser.rs:36-117 | a text put together from words, marks, quotations, annotations, white space and stray characters has the tokens of its pieces; white space, stray characters and unknown annotations have none |
| Lexemes.FallsIntoPieces | src/schema/parser.rs:36-117 | every text is put together in that way |
| Lexemes.SkippedBetween | src/schema/parser.rs:92-115 | putting white space, a stray character or an unknown annotation between two parts of a text changes no token |
| Lexemes.SameClasses | src/schema/parser.rs:36-117 | which characters are white space, word characters and marks |
| Parser.Parser.constructor | src/schema/parser.rs:126-130 | the tokens to come are those of the text |
| Parser.Parser.Advance | src/schema/parser.rs:132-134 | consumes one token |
| Parser.Parser.ExpectIdentifierHere | src/schema/parser.rs:136-145 | refines the grammar's identifier |
| Parser.Parser.MatchTokenHere | src/schema/parser.rs:147-154 | refines the grammar's terminal |
| Parser.Parser.ParseDataTypeHere | src/schema/parser.rs:156-176 | refines the grammar's types, nested to any depth |
| Parser.Parser.ParseFieldHere | src/schema/parser.rs:207-221 | refines one field with its separator; `Grammar.GrammarExact` says which separators those are |
| Parser.Parser.ParseFieldsHere | src/schema/parser.rs:205-222 | the loop over fields refines the recursive grammar |
| Parser.Parser.ParseVariantsHere | src/schema/parser.rs:230-240 | the loop over variants refines the recursive grammar, which `Grammar.GrammarExact` characterises |
| Parser.Parser.ParsePrefixHere | src/schema/parser.rs:187-198 | refines the optional prefix annotation |
| Parser.Parser.ParseTypeHere | src/schema/parser.rs:201-225 | refines a type declaration |
| Parser.Parser.ParseEnumHere | src/schema/parser.rs:226-243 | refines an enum declaration |
| Parser.Parser.ParseNodeHere | src/schema/parser.rs:186-246 | refines a declaration with its prefix; a prefix before an enum is read and dropped |
| Parser.Parser.Parse | src/schema/parser.rs:178-184 | the whole parse, value or first error, of the token sequence; `Grammar.AcceptedTexts` says of which texts |
| Grammar.GrammarExact | src/schema/parser.rs:178-246 | the parser returns `ns` if and only if the tokens spell `ns` by the grammar: a comma after each element but the last, where it is optional |
| Grammar.AcceptedTexts | src/schema/parser.rs:178-246 | the same for texts |
| Grammar.StyledRoundTrip | src/schema/parser.rs:186-246 | every well-formed schema written with or without a final comma, chosen for each declaration, and with any prefix in front of an enum, parses to that schema |
| Printer.RoundTrip | src/schema/parser.rs:36-246 | lexing and parsing the printed text of a well-formed schema gives back the schema, character by character, for any nesting |
| Printer.ParserRange | src/schema/parser.rs:156-246 | a list of nodes is well-formed if and only if the parser can return it |
| Printer.ParsePrintParse | src/schema/parser.rs:178-184 | on every accepted text, parse after print after parse is parse |
| Printer.LexRendered | src/schema/parser.rs:36-117 | lexing inverts rendering of token sequences |
| Printer.TokensLexical | src/schema/parser.rs:36-117 | every token the lexer returns can be written so that it reads back |
| Printer.ParsePrintedNodes | src/schema/parser.rs:178-246 | parsing inverts printing on tokens |
| Printer.ParsedNodesWf | src/schema/parser.rs:178-246 | what the parser returns is well-formed |
| Registry.SchemaRegistry.LoadSchema | src/schema/registry.rs:38-54 | loads every declaration of a text, or nothing if it does not parse; type names stay identifiers and prefixes lead to types |
| Registry.SchemaRegistry.LoadAll | src/schema/registry.rs:41-52 | later declarations replace earlier ones |
| Registry.LoadKeepsNamed | src/schema/registry.rs:38-54 | the naming invariant that queries rely on |
| Loading.LoadedExact | src/schema/registry.rs:41-52 | under each type name, enum name and key prefix loading leaves what the last declaration filed there says, and everything else as it was; an annotated prefix wins over the lower-cased name |
| Loading.LoadedFromEmpty | src/schema/registry.rs:38-54 | after loading into an empty registry a slot holds something if and only if the last declaration filed there says so |
| Loading.PrefixExact | src/schema/registry.rs:44 | which prefix leads to a type |
| Registry.IndexedFieldsForPrefix | src/schema/registry.rs:119-133 | exactly the indexed fields of the type behind the prefix, none if there are none |
| Registry.ConformsStep | src/schema/registry.rs:69-117 | conformance, defined as the absence of any violating part of the value, satisfies its recursive equation |
| Registry.ValidateFieldExact | src/schema/registry.rs:69-117 | validation terminates for every registry, self-referential types included, and accepts exactly the conforming values |
| Registry.ValidateExact | src/schema/registry.rs:56-67 | an object is accepted exactly when the type exists and each of its fields is present and conforms |
| Violations.ErrorExact | src/schema/registry.rs:56-117 | validation reports an error if and only if it is that of the first violation in the order of fields and items, with the field and position it names |
| Violations.DigitsExact | src/schema/registry.rs:110 | positions are written in decimal without leading zeros |
| Registry.WidthIgnored | src/schema/registry.rs:76-80 | the five integer types accept the same values: 70000 is a U16, -1 a U64 |
| Store.FoldAt | src/wal.rs:7-12 | the tree a log describes holds, for each key, its last write under that entry's id |
| Store.VisibleUntil | src/server.rs:54-61 | a record can be seen up to and including the millisecond of its expiry |
| Store.ListingIrrelevant | src/server.rs:433-450 | any two listings of one write set do the same to a tree |
| CommitOrder.CommitOrderIrrelevant | src/server.rs:419-458 | nor does the order of the write-set map matter to the whole state after a commit: tree, indexes and cache |
| CommitOrder.ReplayOrderIrrelevant | src/server.rs:210-240 | nor to tree and indexes after replay of the transaction |
| CommitOrder.WriteStepsAt | src/server.rs:433-458 | what a commit leaves in every index set about every key |
| Store.ViewsEqual | src/server.rs:54-61 | two trees look the same exactly when every key does |
| Store.TrailsApply | src/server.rs:475-486 | a tree that lacks some expired records still does after both apply the same entry |
| Wal.Wal.Append | src/wal.rs:36-52 | the file stays the encoding of the entries, with this one added |
| Wal.Wal.Truncate | src/wal.rs:54-57 | the file is empty |
| Wal.ReadAllCommands | src/wal.rs:59-93 | any file is read by `ReadAll`, which `WalReading.ReadAllExact` characterises by what the codec answers |
| Wal.ReadFromTxId | src/wal.rs:95-124 | on any file, from any positive id: what the other reader returns, from that id on |
| Wal.ReadersAgree | src/wal.rs:59-124 | the two readers differ only on old-format lines, whose id 0 no follower asks for |
| WalReading.ReadAllExact | src/wal.rs:59-93 | a list of entries is what a file is read as if and only if it holds, in line order and each line once, the envelopes whose checksum matches and the bare commands under id 0; blank and other lines give nothing |
| WalReading.ReadLineGives | src/wal.rs:68-90 | the same for one line |
| WalReading.LinesExact | src/wal.rs:68-69 | both kinds of line endings are taken off, and an unterminated last line counts |
| WalReading.MixedLog | src/wal.rs:84-86 | old-format lines followed by lines of this server read as both |
| WalReading.OldEntriesCount | src/server.rs:183-184 | replayed old entries raise the version counter by one each |
| WalReading.MixedRestart | src/server.rs:179-244 | a restart on such a log shows each key as its last write, in either part, left it, unless that was a Put that has expired |
| Wal.ReadWritten | src/wal.rs:36-93 | reading inverts writing |
| Wal.CrashPrefix | src/wal.rs:36-93 | a file cut at any character reads as a prefix of the log: the entries whose encoding is complete |
| Wal.ReadThen | src/wal.rs:59-93 | whole lines read the same whatever follows them |
| Wal.AppendAfterCrash | src/wal.rs:27-52 | after a cut at any character, the lines kept whole are read, and the next record appended is recovered if and only if the cut fell on a line boundary |
| Wal.AppendDestroys | src/wal.rs:27-52 | a record that lacked only its newline is read after the crash and lost with the next append, as is that one |
| WalBytes.CrashBytes | src/wal.rs:59-93 | a file cut at any byte reads as the entries whose lines are complete if the cut falls between characters, and as nothing otherwise |
| WalBytes.TornCharacter | src/server.rs:179-184 | after a cut inside a character restart shows the snapshot alone |
| WalBytes.FirstByteTears | src/wal.rs:69 | a cut after the first byte of a longer character is such a cut |
| WalBytes.CutDecodes | src/wal.rs:68-69 | what a cut text decodes to, for every prefix-free character encoding |
| WalCodec.FaithfulCodecExists | src/wal.rs:14-20 | what the proofs assume of the encoding can be met: one line, decodable, no proper prefix decodable, nothing decodable from a torn encoding followed by another; it also has an old-format line for every command |
| Indexes.AddKeysAt | src/server.rs:297-305 | indexing adds the key under exactly the given index keys |
| Indexes.RemoveKeysAt | src/server.rs:307-313 | unindexing removes it from exactly those |
| KindServer.KindServer.constructor | src/server.rs:114-118 | a fresh server with an LRU cache |
| KindServer.KindServer.IndexRecord | src/server.rs:297-305 | the loop adds the key under every extracted index key |
| KindServer.KindServer.RemoveRecordFromIndex | src/server.rs:307-313 | the loop removes it from every extracted index key |
| KindServer.KindServer.Get | src/server.rs:467-487 | answer and new state: cache first, then the tree, dropping an expired record from tree and indexes |
| KindServer.KindServer.Put | src/server.rs:489-520 | the whole new state; refused on a replica |
| KindServer.KindServer.Delete | src/server.rs:522-548 | the whole new state; an absent key changes and logs nothing |
| KindServer.KindServer.Cas | src/server.rs:599-660 | succeeds exactly when the visible value, or nothing, is what was expected; the whole new state in each branch |
| KindServer.KindServer.HasConflict | src/server.rs:410-416 | whatever the iteration order, finds whether some written key holds a newer record |
| KindServer.KindServer.ListWrites | src/server.rs:419-426 | lists each write of the set exactly once, in some order |
| KindServer.KindServer.Commit | src/server.rs:406-460 | all of the write set under one version and one log entry, or nothing |
| KindServer.KindServer.LogAndApply | src/server.rs:418-458 | one log entry, one version, then the writes |
| KindServer.KindServer.ApplyWrites | src/server.rs:433-458 | the loop carries out the listed writes on tree, indexes and cache |
| KindServer.KindServer.Sweep | src/server.rs:823-833 | exactly the expired records leave tree and indexes |
| KindServer.KindServer.SaveSnapshotAndTruncateWal | src/server.rs:315-343 | the snapshot holds the live records in key order and the log is empty |
| KindServer.KindServer.CollectLive | src/server.rs:327-335 | iterating and skipping yields the live records, each once, in key order |
| History.ExecEffect | src/server.rs:406-660 | each step that logs applies exactly what it logs under the next version; every other step only drops expired records |
| History.StepTree | src/server.rs:406-660 | what each step leaves under each key: the write under the next version, or what it had; a sweep, or a get that the cache does not answer, takes away exactly the expired record |
| History.RunNumbered | src/server.rs:406-660 | after every run ids count from one without gaps and the log file is the tail of all that was announced |
| History.RunTrails | src/server.rs:406-660 | after every run the tree is the fold of the log, less some expired records |
| History.RunView | src/server.rs:406-660 | clients see what the log says |
| History.RecordIsLastWrite | src/server.rs:418-439 | each record carries the id and value of the last logged write of its key, and the version counter bounds them all; an absent key was never written, deleted last, or has expired |
| History.FirstCommitterWins | src/server.rs:345-460 | if a transaction can commit, every key it writes that was written after its snapshot has since been removed or has expired |
| History.SecondCommitterFails | src/server.rs:410-416 | a visible newer write of one of its keys makes the commit fail and changes nothing |
| History.ConflictExact | src/server.rs:410-416 | a commit fails if and only if a key it writes is still in the tree, expired or not, and was last written after the snapshot |
| History.NoConflictAtBegin | src/server.rs:345-352 | a transaction that begins now has no conflict yet, because the counter bounds all versions |
| History.ConflictCheckMissesRemovedKeys | src/server.rs:410-416 | a run with a put and a delete that the check does not notice |
| History.CasSeesView | src/server.rs:612-659 | the outcome of CAS is a function of the unexpired view |
| History.EvictionKeepsView | src/server.rs:475-486 | lazy removal and sweeps never change the view, now or later |
| History.EvictionUnobservable | src/server.rs:475-486 | a run logs throughout what it would without its gets and sweeps, so that every put, delete, CAS and commit has the same outcome, if and only if no delete hits an evicted record and no commit passes only because newer records were evicted |
| History.SameLogSameView | src/server.rs:823-833 | and then clients see the same |
| History.SweepNoticed | src/server.rs:823-833 | a run in which a sweep lets a commit pass and makes a delete fail |
| History.SweepChangesVerdict | src/server.rs:410-416 | a sweep lets a conflicting commit through exactly when all newer records of its keys have expired |
| History.DeleteTellsEvicted | src/server.rs:527-547 | `delete` answers the same before and after a sweep exactly for keys that are not expired |
| IndexRuns.ExecIndexes | src/server.rs:489-660 | each step keeps completeness; it keeps exactness if and only if it is not a CAS that leaves a stale entry |
| IndexRuns.RunExact | src/server.rs:270-313 | the indexes are exact throughout a run if and only if no CAS lands on an expired record with an index key the new value lacks |
| IndexRuns.RunComplete | src/server.rs:270-313 | in every run each record is found under all index keys of its value |
| IndexRuns.CasOverExpired | src/server.rs:614-650 | the exact condition for one CAS over an expired record |
| IndexRuns.StaleEntryExists | src/server.rs:614-650 | a run that does leave a stale entry |
| IndexRuns.BlindExact | src/server.rs:186-197 | updates that store without unindexing lead from exact to exact indexes if and only if none replaces a record with an index key that it lacks and that no later one brings back |
| IndexRuns.BlindIndex | src/server.rs:186-209 | what an index set then holds: the keys whose records extract it, and those left stale |
| StaleRuns.RunIndex | src/server.rs:297-313 | after every run an index set holds exactly the keys whose records extract it and those that a CAS stored over, with that index key, and that never had it again; never both |
| StaleRuns.ExecIndexAt | src/server.rs:467-660 | what each step leaves in every index set about every key |
| CacheRuns.CoherentIsTransparent | src/server.rs:467-487 | every cached value is the tree's never-expiring value if and only if `get` answers as the tree alone would |
| CacheRuns.ExecCache | src/server.rs:489-660 | each step keeps that, except exactly a TTL put over a cached key |
| CacheRuns.RunTransparent | src/server.rs:457-530 | `get` is transparent throughout a run if and only if no TTL put lands on a cached key |
| CacheRuns.CacheIsTrace | src/server.rs:406-660 | after every run the cache is the LRU cache of the trace of gets, plain puts and otherwise changed keys |
| CacheRuns.StaleRead | src/server.rs:501 | a run after which reads answer with a value that was overwritten, and still do after the key has expired |
| Query.PrefixScan | src/server.rs:564-578 | the scan that stops early returns what filtering the whole ordered tree would, in the same order |
| Query.PrefixScanExact | src/server.rs:564-578 | which records that is, by prefix, filter and visibility, in key order |
| Query.ReportExact | src/server.rs:587-593 | a report holds exactly the visible records of its keys |
| Query.RangeSuffices | src/server.rs:366-378 | keys with a prefix form one block that starts at the prefix |
| Ordered.PrefixBlock | src/server.rs:366-378 | no key without the prefix lies between the prefix and a key with it |
| Query.Query | src/server.rs:580-597 | the unexpired records of a page of the index set, 100 keys unless asked otherwise |
| Query.IndexKeyInjective | src/server.rs:286 | for colon-free type and field names the index key determines type, field and value |
| Query.ExtractsIffMatches | src/server.rs:270-295 | a record is filed under an index key exactly when a scan for that field value, compared case by case with the JSON value, would match it |
| Query.RenderedAsAsked | src/server.rs:280-285 | which text a value is filed under: a string its own, a number its digits, `true` and `false` their names, anything else none |
| Query.TypePrefixExact | src/server.rs:272 | the type prefix of a key is what precedes its first colon |
| Query.PageExact | src/server.rs:585-587 | which key has which place on a page at any offset and limit |
| Query.IndexIsScan | src/server.rs:580-597 | under exact indexes the index set is the set of matching records |
| Query.QueryIsFullScan | src/server.rs:580-597 | with offset 0 and a large enough limit a query returns what a full ordered scan returns |
| Query.QueryAfterRun | src/server.rs:580-597 | the same after any run without stale entries, for a schema loaded from any text |
| QueryRuns.EvictionsInQueries | src/server.rs:580-597 | where no write notices an eviction, a query for everything under an index key is answered as without the gets and sweeps, if and only if the CAS requests of both runs left the same visible keys stale |
| QueryRuns.NothingStaleNothingNoticed | src/server.rs:580-597 | in particular where the run without evictions leaves nothing stale |
| QueryRuns.EvictionsInPages | src/server.rs:585-590 | and then answers on the first page agree if and only if as many of its places hold visible keys |
| QueryRuns.SweepSeenByQuery | src/server.rs:614-650 | a sweep that no write notices and a query does |
| QueryRuns.SweepSeenByPage | src/server.rs:585-590 | with exact indexes, a sweep that a query with limit 1 notices |
| Query.ColonShiftsQuery | src/server.rs:582 | with colons in the names two different queries share one index key |
| Query.InvalidWriteAccepted | src/server.rs:489-520 | after any run, a put of a value that its type rejects is stored and read back |
| Query.NullRejected | src/schema/registry.rs:56-67 | no type accepts null, so there are such values |
| Restart.RebuildServer | src/server.rs:154-244 | snapshot load and log replay on any log file |
| Restart.ReplayCommands | src/server.rs:183-242 | the replay loop, with its running maximum of versions |
| Restart.ReplayTransaction | src/server.rs:210-240 | the loop over a transaction's commands |
| Restart.ReplayAt | src/server.rs:183-242 | for each key replay keeps the last write that is a Delete or an unexpired Put |
| Restart.RunDurable | src/server.rs:315-343 | after every run snapshot and log together determine the view |
| Restart.RestartAgrees | src/server.rs:154-244 | a key shows the same after restart if and only if replay does not resurrect it: its last logged write is an expired Put and an older value is still live |
| Restart.RestartWithoutTtl | src/server.rs:154-244 | without TTLs in the log the whole view is restored |
| Restart.RestartResurrects | src/server.rs:187 | a run after which restart brings back an overwritten value |
| Restart.CrashRestart | src/server.rs:179-244 | a crash at any character of the log replays a prefix of whole entries |
| Restart.CrashMidStep | src/wal.rs:36-52 | a crash while a step appends recovers the state before it or, once the record is complete, after it |
| Restart.RestartLosesBoth | src/wal.rs:27-93 | crash before a newline, restart, another put, restart: the first restart shows the record, the second neither |
| Restart.ReplayedTransaction | src/server.rs:210-240 | a replayed transaction writes its whole write set, less expired Puts, and nothing else, in whatever order it was listed; for the indexes see `CommitOrder.ReplayOrderIrrelevant` |
| Lifetimes.LifeDurable | src/server.rs:154-244 | through any number of restarts, snapshot and log promise what clients see at all times if and only if no restart resurrects a key |
| Lifetimes.NextRestartAgrees | src/server.rs:154-244 | after any such life the next restart shows a key as the live server did, exactly unless it resurrects it |
| RestartVersions.RestartVersion | src/server.rs:154-184 | the version counter never grows by a restart, and is restored exactly when the log is not empty or an unexpired snapshot record carries it |
| RestartVersions.RestartReusesIds | src/server.rs:154-184 | a run after which it is not |
| RestartVersions.ReplayConflict | src/server.rs:223 | for any files: right after restart a new transaction conflicts on a key if and only if a replayed transaction stored it, replay wrote it no more, and no later entry raised the counter |
| RestartVersions.SpuriousConflict | src/server.rs:223 | the same over runs, with snapshots truncated or not: the last effective write of the key is in a transaction whose id, or a snapshot version, is the highest |
| RestartVersions.SpuriousAfterCommit | src/server.rs:223 | a run in which it happens: one commit |
| RestartVersions.SpuriousAfterSnapshot | src/server.rs:223 | another, in which the transaction is not the last log entry: a crash between the snapshot's rename and the truncation |
| RestartIndexes.RebuildComplete | src/server.rs:154-244 | the rebuilt indexes are complete, whatever the files hold |
| RestartIndexes.RebuildExact | src/server.rs:186-197 | they are exact if and only if no loaded or replayed record replaces one with an index key that it lacks and that the key never gets back |
| RestartIndexes.RestartLeavesStale | src/server.rs:186-197 | two puts of one key, exact indexes, and a restart that leaves a stale entry |
| Replica.ApplyCommand | src/replica.rs:92-143 | the whole new state of the follower |
| Replica.LoadChunk | src/replica.rs:35-45 | inserts and indexes each record and sets the version |
| Replica.HandleStream | src/replica.rs:30-76 | one connection is `ReceiveAll`: snapshots, duplicates, undecodable payloads, and the gap that ends it, as `GapEndsStream` and `NoGapGoesOn` say |
| Replica.GapEndsStream | src/replica.rs:55-58 | whatever follows the first gap has no effect |
| Replica.NoGapGoesOn | src/replica.rs:30-76 | and every payload before it is received in turn |
| Replica.GapDisconnects | src/replica.rs:55-58 | a record more than one above a non-zero version, and no other payload, ends a connection |
| Replica.ReceiveExact | src/replica.rs:46-66 | known ids, gaps and undecodable commands change nothing; the next id, or any at version 0, is applied |
| Replica.ChunkStamps | src/replica.rs:35-44 | a loaded record is stamped with the version of its snapshot, which the follower takes over |
| Replica.ApplyRecordTree | src/replica.rs:92-143 | a record does to the follower's tree what it did to the leader's, and is logged |
| Replica.FollowerStaysCorrect | src/replica.rs:46-66 | from a non-zero version, any stream of authentic records with drops, duplicates, reorderings, reconnections and evictions keeps the tree the log's tree up to the version, which never decreases |
| Replica.FollowerKeepsView | src/replica.rs:46-66 | the same for what clients see, which also holds after a snapshot |
| Replica.FirstRecordAtZero | src/replica.rs:55 | at version 0 the first accepted record yields the log's tree exactly when it overwrites all that the skipped ones left |
| Replica.SkipsFirstRecord | src/replica.rs:50-58 | record 2 arrives first at version 0: record 1 is lost for good |
| Replica.FollowerCacheEmpty | src/replica.rs:92-143 | a follower's cache stays empty in every run |
| Replica.ReceiveIndexes | src/replica.rs:35-66 | records keep exactness and completeness; a snapshot chunk keeps completeness, and keeps exactness if and only if it leaves nothing stale |
| Replica.ChunkLeavesStale | src/replica.rs:36-43 | a chunk that does leave something stale |
| Sync.SyncRound | src/server.rs:697-775 | reads the log and answers with everything one round sends; `ReplyExact` says what that is |
| Sync.Reply | src/server.rs:698-723 | log records or snapshot chunks; `ReplyExact` says which |
| Sync.ReplyExact | src/server.rs:698-723 | after every run, a follower at a non-zero version within reach of the log file gets exactly the records after its version, every other the live records in chunks |
| Sync.InReachConverges | src/server.rs:697-775 | so a follower within reach of the log file always comes to the leader's view and version, deleted keys included |
| Sync.SendSnapshot | src/server.rs:727-762 | the chunking loop |
| Sync.ChunksCarryAll | src/server.rs:727-762 | chunks hold at most 100 records and together carry all, in order; nothing is sent only for no records at a positive version |
| Sync.ChunkSizes | src/server.rs:727-762 | every chunk but the last holds exactly 100 records |
| Sync.SnapshotReply | src/server.rs:727-762 | a snapshot reply carries each live record exactly once |
| Sync.RecordsAfter | src/wal.rs:95-124 | the records read are all those after the follower's version if the log reaches back that far, else the whole log |
| Sync.TailConverges | src/replica.rs:46-66 | receiving all of the log a follower misses brings it to the end of the log |
| Sync.SyncConverges | src/server.rs:697-775 | one uninterrupted round brings a follower that shows a prefix of the leader's log, however it got there, to the leader's view, if and only if it is within reach of the log file or holds no key the leader no longer shows; its version becomes the leader's unless there was nothing to send |
| Sync.FreshFollowerConverges | src/server.rs:697-775 | an empty follower always reaches the leader's view |
| Replication.FollowerShows | src/replica.rs:16-90 | in every common life of leader and follower, from the follower's first start, with whole or interrupted sync replies, lost, repeated and reordered records, reconnections and evictions: the follower shows the leader's log up to its version at all times, if and only if it never accepts at version 0 a record that does not cover the skipped ones, and never takes over the version of a snapshot that leaves a difference unmentioned |
| Replication.VersionGrows | src/replica.rs:44-142 | and its version never goes back |
| Replication.MomentShows | src/replica.rs:30-66 | the same for one moment |
| Sync.StaleKeySurvives | src/replica.rs:35-45 | a run after which a deleted key survives at the follower |
| Concurrency.Linearizable | src/server.rs:406-660 | in every interleaving of CAS and commit clients: consecutive ids; tree equal to the fold of the log whenever the mutex is free; each request takes effect once between call and return, with the outcome of a sequential execution that builds this very log |
| Concurrency.CasReplacedExpected | src/server.rs:599-660 | among CAS and commit clients each successful CAS replaced exactly the value it expected |
| Concurrency.TakeKeeps | src/server.rs:406-660 | every single step of every client keeps the invariant |
| PlainWrites.TreeMatchesLog | src/server.rs:406-660 | in every interleaving of put, delete, CAS and commit clients, the tree is the fold of the log if and only if the value each key was given last is the one logged last for it |
| PlainWrites.RestSettles | src/server.rs:503-538 | when all clients are done, every logged value was inserted under its id and nothing else was, and each version is in the log exactly once |
| PlainWrites.IdsInOrder | src/server.rs:503-509 | the ids in the log are consecutive if and only if the clients appended in the order in which they took their versions |
| PlainWrites.TakeIds | src/server.rs:418-430 | every step keeps each version in the log once or with one client |
| CasRaces.CasAmongOthers | src/server.rs:599-660 | in every interleaving of all clients: right before a CAS inserts, the tree shows what it expected at its check, if and only if the last put, delete or eviction of the key since that check, if any, left that |
| CasRaces.CommitAmongOthers | src/server.rs:406-460 | right before a transaction writes a key, the tree holds a record newer than its snapshot, if and only if the last such change since its check stored one |
| CasRaces.PledgedStep | src/server.rs:406-660 | between check and insertion of a key, every step changes it without the mutex or not at all |
| CasRaces.Held | src/server.rs:406-660 | the mutex has one holder, and it inserts what its request says, in every interleaving |
| KeyGuard.KeyAgrees | src/server.rs:503-538 | if no client logs or changes a key while another is between its log and its change of it, and nobody evicts it, tree and log agree on the key whenever nobody is half done |
| KeyGuard.ExclusiveCas | src/server.rs:599-660 | if also nobody writes the key between another's check and insertion, the log says right before the entry of a successful CAS what it expected, put and delete clients included |
| KeyGuard.KeyHolds | src/server.rs:503-538 | the invariant behind both |
| SnapshotRaces.SnapshotExact | src/server.rs:315-343 | under the same guard, snapshot and log file recover what the tree holds for the key, if and only if the last snapshot did not fall between log and insertion of a put of it, or the key was logged again since |
| EvictRaces.EvictAmongOthers | src/server.rs:475-481 | an eviction removes a record that is live by the clock of its look, if and only if the last change of the key since that look stored one |
| Races.PutRace | src/server.rs:503-511 | a schedule of two puts that ends with one value in the tree and the other last in the log |
| Races.IdRace | src/server.rs:503-509 | a schedule of two puts that logs ids 2, 1 |
| Races.LostUpdate | src/server.rs:505-511 | a schedule that ends with consecutive ids and the tree the log describes, in which a CAS that expected nothing overwrote a put |
| Races.MissedConflict | src/server.rs:410-416 | a schedule in which a transaction commits over a newer put |
| Races.LostPut | src/server.rs:315-343 | an acknowledged put that is neither in the snapshot nor in the log |
| Races.FreshEvicted | src/server.rs:475-481 | a get that removes what a CAS has just stored |

## Left out

- gRPC, `main.rs`, the command line tool, the Go client and the Docker files: transport and user interface.
- File input and output: a file is a sequence of characters (of bytes in `WalBytes`), appends and renames succeed; a crash cuts the log.
- JSON, CRC32 and the skip list: the log's codec and checksum and the JSON reader of values are parameters (`Wal.Faithful` says what is assumed of the codec); the snapshot file is the sequence of its records.
- Clock and randomness: each step gets its clock reading as a parameter, TTLs are given as the expiry they lead to, and the choices of hash maps are arbitrary.
- `u64` wrap-around of versions and times: numbers are unbounded.
- `matches_filters`: floating-point comparison; scans take the filter as a parameter.
- `range_scan`, the watch stream and its events: they would only add easy members.
- Broadcast to connected followers after a sync round, and its lag: any loss there is one of the drops that `Replication.FollowerShows` allows.
- Replica restart from its own files: snapshots it received are not in its log.
- A leader that restarts under its followers and hands out ids again: `Replication` follows one lifetime of the leader. Of the properties of runs, only what clients see is carried over restarts (`Lifetimes`); ids, indexes and cache are about the first lifetime and the first restart.
- `TxHandle` building its write set, `rollback`, error message texts, and lock poisoning.
- Which error a refused schema text is reported with: `Grammar.AcceptedTexts` says which texts are accepted.
- Character classes beyond ASCII in the lexer and in `to_lowercase`.
- Server without a log or snapshot path, and unreadable files: both paths are taken to be configured and readable.
- Concurrency.Linearizable: about interleavings of CAS and commit clients. With the other clients it fails (`Races.LostUpdate`); for those, `CasRaces.CasAmongOthers` and `CasRaces.CommitAmongOthers` give the exact outcome, and `KeyGuard.ExclusiveCas` a guard under which CAS stays right.
- Concurrency.CasReplacedExpected: about CAS and commit clients, as above.
- PlainWrites.TreeMatchesLog: its condition compares where tree and log end up; `KeyGuard.KeyAgrees` gives one on the schedule, which is sufficient and not necessary.
- SnapshotRaces.SnapshotExact: takes a snapshot in one step, and keeps expired records in it.
- Indexes and cache do not take part in the interleavings.
- Query.QueryIsFullScan: about unlimited queries at offset 0; a page counts expired records that it then leaves out.
