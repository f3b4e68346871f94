# Verification of the URL shortener

A Dafny model of the shortener behind its HTTP layer, with proofs. It has three connected parts.

**The store, in three representations of one abstract thing.** The abstract store
(`AbstractStore`) is a partial one-to-one map between abbreviations and URLs with a hit total and
hits per day.

- `MemoryState` and `MemoryDB`: two indexes over shared mutable records. The class `MemoryDB.MemoryDB`
  works on heap objects (two maps of references, records, and the separately allocated daily map
  that a copied record shares); its methods are proved against the value functions of
  `MemoryState`, and the theorems are about those.
- `SqlTables`, `SqlRuns`, `SqlDB`: SQLite and Postgres. They share schema and statements; they
  differ in the steps a background hit update takes (`Flush` under the write lock, or `BeginFlush`
  and `EndFlush` with anything in between) and in whether a refused insert uses up an id. `SqlRuns`
  is the state machine of atomic steps, `SqlDB.SqlDB` the class.
- `RedisKeys`, `RedisRuns`, `RedisPairing`, `RedisDB`: one flat key space split by three prefixes,
  the commands issued on it, the queued transactions, late hit updates, and when the two kinds of
  keys stay inverse. The methods of the class `RedisDB.RedisDB` take the steps that other
  connections make between two commands as a parameter.

`Protocol` states the handlers once, over any store; `Refinement` proves that a store that
simulates the abstract one answers every sequential run as the abstract store does;
`MemoryRuns`, `SqlSimulation` and `RedisSimulation` establish the simulations.
`History` says what the answers are, without naming any handler: the requests and responses so far
determine which links exist, where they lead and which hits they show on each day, and these
determine the next response. `StoreAgreement` states it for the four databases and compares them. A request whose creation does not return halts a
sequential run, which keeps the hits that the creation has counted by then and gets no further
answers.

**The abbreviation generator.** `Rando`, `ReservedWords`, `Generator`, `MemoryCreation` and
`Abbreviator`: two nested retry loops over one growing key size. The random source is an arbitrary
infinite stream of draws and the key size any integer. A randString call returns once it draws an
acceptable word, which a stream need not offer: `Generator.RandString` and
`Generator.CreateAbbreviation` then say so. `Generator.CreationOutcome` shows that a creation
returns if and only if each randString call that it makes does (`Generator.CallsReturn`); the outer
loop needs nothing else, and its worst-case bound is proved. No other result asks anything of the
stream, except those that promise an answer, which ask that the calls made return.

**The request protocol.** `Handlers.Handlers` serves from the in-memory store and is proved equal to
the functions of `Protocol`. `AddProtocol` is the concurrent form of an add request on SQLite, whose
Save is one locked step, and on Postgres, whose Save is an insert and a separate check;
`RedisAddProtocol` is the form on Redis, whose Save is a check and a later transaction. The
abbreviation is arbitrary. `AddAnswers` and `RedisAddAnswers` tell from the rows or keys that an
event meets what it does to a request and to the database, and which reply a request gets in a
whole run.

The classes `SqlDB.SqlDB` and `RedisDB.RedisDB` carry the sequence of steps made so far as ghost
state, and their invariant says that their fields are the state that those steps lead to. The
theorems of `SqlRuns` and `RedisRuns` about all interleavings therefore hold of the objects.

Parameters of the model: the random draws, the settings keygrowretries and startingkeysize, the
table of forbidden words (of which only the fact is used that each word contains a non-digit), the
current day and time, and whether a URL parses.

Results that differ from what the code or its comments suggest, each with the input that shows it
and, where there is one, the exact condition:

- The in-memory store, SQLite and Redis report the same statistics only up to the largest int32.
  Beyond it the in-memory counter wraps, the SQLite row scan fails, and the Redis conversion
  saturates. The condition is exact (`StoreAgreement.StoresAgree`), and a link that is looked up once
  too often breaks it (`StoreAgreement.BusyLinkPartsTheStores`).
- The comment at dao/memorydb.go:96 says that the copy returned by GetStats prevents external
  modification; the copy shares the record's daily map, which stays as it was if and only if the
  record is not looked up again (`MemoryState.CopiedStatsDrift`, `MemoryState.OneLookupReachesTheCopy`).
- A starting key size below 1 is accepted but breaks the pairing of the indexes
  (`KeySizeZero.PairingNeedsAKeySize`).
- On Postgres a Save can return nil without its URL ever being stored. It cannot if and only if the
  insert meets a free abbreviation or a stored URL (`SqlRuns.TwoStatementSaveMeaning`,
  `AddProtocol.PostgresSuccessNeedsASoundInsert`); a delete between its two statements is the
  witness (`SqlTables.TwoStatementSaveCanLoseTheUrl`).
- On both SQL stores a successful add can return an abbreviation that leads nowhere.
  `AddProtocol.ReplyResolvesIff` gives the exact condition for each event that can answer;
  `AddProtocol.RacingAddsReturnADeadLink` shows it fail at the insert, and
  `AddProtocol.LateCheckReturnsADeadLink` at Postgres' later check.
- Postgres and Redis read totals and daily hits in two steps, so the two can differ.
  `SqlRuns.TwoReadStatistics` and `RedisRuns.TwoReadStatistics` give the exact condition for the
  steps in between; on Redis hits stay within the daily hits whatever comes in between if and
  only if there are none (`RedisRuns.TwoReadsAgreeIffNoHits`).
- On Redis a late hit update recreates a deleted record, which then has statistics but no URL and
  cannot be deleted before it is saved again (`RedisRuns.AnyRecordCanBeRecreated`, `RedisRuns.DeleteRemovesIffUrl`).
  A deleted record stays deleted, until its abbreviation is stored again, if and only if no hit
  update of it is outstanding (`RedisRuns.StaysDeletedIffNoLateHit`).
- On Redis two saves of one abbreviation with different URLs both succeed
  (`RedisPairing.RacingSavesUnpair`, `RedisAddProtocol.RacingAddsShareAnAbbreviation`). Records and
  URL keys stay inverse through a run if and only if each transaction meets its abbreviation and
  its URL unbound or bound to each other (`RedisPairing.RunStaysPairedIffItsTransactionsFit`).

## Model

| member | source | states |
|---|---|---|
| `ReservedWords.AcceptableWord` | dao/reservedwords.go:694-711 | true exactly when no forbidden word is a contiguous substring, whatever order the table is visited in |
| `ReservedWords.ContainsIffSubstring` | dao/reservedwords.go:704 | the containment test holds if and only if the string is some prefix, the word, and some suffix |
| `ReservedWords.ExactMatchIsRedundant` | dao/reservedwords.go:699-701 | the exact-match test rejects nothing that the substring test would accept |
| `ReservedWords.SubstringsStayAcceptable` | dao/reservedwords.go:702-708 | every substring of an acceptable word is acceptable |
| `ReservedWords.DigitsAreAcceptable` | dao/reservedwords.go:13-691 | every all-digit string is acceptable, as each forbidden word contains a non-digit |
| `ReservedWords.AcceptableWordsOfEachLength` | dao/reservedwords.go:694-711 | there are at least 10^n acceptable words of each length n |
| `ReservedWords.FreeWordExists` | dao/abbreviator.go:28-48 | while fewer than 10^n keys of length n are stored, a free acceptable key of length n exists |
| `Rando.AlphabetInFull` | rando/rando.go:9 | the 36 characters in the order of the source; distinct indexes give distinct characters |
| `Rando.Rand.RandStrn` | rando/rando.go:13-19 | the next `length` draws spelled over the 36-character alphabet, none for a negative length, and exactly that many draws used up |
| `Generator.RandStringResult` | dao/abbreviator.go:12-26 | one randString call returns the first acceptable word among those that the draws spell, over the alphabet, as long as the key size that its rejections have left |
| `Generator.RejectNSize` | dao/abbreviator.go:19-24 | after n rejections the key size has grown exactly floor(n / max(1, retries + 1)) times |
| `Generator.DigitsMakeItReturn` | dao/abbreviator.go:12-26 | a randString call returns as soon as one of the words it would draw consists of digits, whatever is drawn before |
| `Generator.ProbeArithmetic` | dao/abbreviator.go:28-48 | after n iterations the key size is start + floor(n/G) plus the growth of each inner call, and the abbreviation on offer has exactly that length |
| `Generator.CollisionsAreBounded` | dao/abbreviator.go:32-45 | whatever is drawn, on a store whose longest key has M characters a colliding iteration n is below G * (M + 1 - k), with k the key size of the first probe and G = max(1, retries + 1) |
| `Generator.CollisionsCountTwice` | dao/abbreviator.go:32-45 | n collisions count 2n hits, plus one when the last probe found something, and no abbreviation changes what it resolves to |
| `Generator.CreationOutcome` | dao/abbreviator.go:28-48 | on any store whose lookups only count, a creation returns if and only if each randString call it makes does; either way its n collisions lie within the bound and count 2n hits; the word returned is acceptable, of the final key size, and free or already bound to the URL |
| `MemoryCreation.CreationOnMemory` | dao/abbreviator.go:28-48 | the same for the in-memory store: returns exactly when its calls do, links unchanged, daily hits up by exactly 2n, plus 1 only when the result already held the URL; up by 2n when it does not return |
| `Abbreviator.Abbreviator.RandString` | dao/abbreviator.go:12-26 | whenever some draw is acceptable the retry loop ends, with the word, key size and draw position of the specification |
| `Abbreviator.Abbreviator.CreateAbbreviation` | dao/abbreviator.go:28-48 | whenever the randString calls it makes return, the nested loops terminate in the state of the specified creation |
| `MemoryDB.MemoryDB.Save` | dao/memorydb.go:25-38 | both indexes point to one fresh record with no hits, overwriting blindly |
| `MemoryDB.MemoryDB.DeleteAbv` | dao/memorydb.go:40-50 | removes the abbreviation and the index entry of its record's URL |
| `MemoryDB.MemoryDB.DeleteUrl` | dao/memorydb.go:52-62 | removes the URL and the index entry of its record's abbreviation |
| `MemoryDB.MemoryDB.GetUrl` | dao/memorydb.go:64-77 | returns the URL and credits the shared record once, with int32 wrap-around; no other record changes |
| `MemoryDB.MemoryDB.GetAbv` | dao/memorydb.go:79-88 | the abbreviation of the record indexed under the URL, or empty |
| `MemoryDB.MemoryDB.GetStats` | dao/memorydb.go:90-100 | a copy of the record that shares the record's own daily map object; the zero value for a missing key |
| `Model.AddHitsOnOneDay` | dao/memorydb.go:64-77 | hits counted on a day are added to that day and to no other, and no day appears without hits |
| `MemoryState.SaveKeepsPairing` | dao/memorydb.go:25-38 | from paired indexes Save leaves them paired if and only if both keys are free or already belong together |
| `MemoryState.DeletesAreLocal` | dao/memorydb.go:40-62 | a delete by a missing key changes nothing; by a stored key exactly that key and the other key of its record go, whether or not the indexes are paired |
| `MemoryState.DeletingEitherKeyIsTheSame` | dao/memorydb.go:40-62 | deleting a pair by either key has the same effect and removes only that pair |
| `MemoryState.EveryRunAgrees` | dao/memorydb.go:25-77 | after any call sequence every indexed record carries its key, and each int32 counter is the wrapped sum of the daily hits |
| `MemoryState.RecordsOnlyAccumulate` | dao/memorydb.go:64-77 | a record keeps its identity, and its daily hits grow by exactly its successful lookups, indexed or not |
| `MemoryState.CopiedStatsDrift` | dao/memorydb.go:90-100 | a statistics copy keeps its counter while its shared daily hits outgrow it by the lookups made since; the shared map is still what was copied if and only if there were none |
| `MemoryState.OneLookupReachesTheCopy` | dao/memorydb.go:64-100 | one later lookup adds a hit to the daily map of a copy already handed out |
| `MemoryRuns.MemorySimulates` | dao/memorydb.go:25-100 | the in-memory store simulates the abstract one-to-one store and reports wrapped totals |
| `MemoryRuns.EveryRunStaysPaired` | handlers/handlers.go:109-160 | every sequential handler run from empty with key size at least 1, whatever is drawn, keeps the indexes exact inverses sharing records, without empty keys |
| `MemoryRuns.RunLedger` | handlers/handlers.go:72-146 | in every such run daily hits on live and deleted records together equal the successful redirects plus twice the collisions of all creations, that of a creation that does not return included |
| `KeySizeZero.PairingNeedsAKeySize` | dao/abbreviator.go:10 | all sequential runs keep the indexes paired if and only if the starting key size, any integer, is at least 1; below 1 three adds unpair them, provided they return |
| `Handlers.Handlers.GetHandler` | handlers/handlers.go:72-89 | redirects to the URL of the record stored under the abbreviation, or not found without one, and counts the hit; of the four counters only the redirect counter is bumped |
| `Handlers.Handlers.StatsHandler` | handlers/handlers.go:91-107 | shows abbreviation, URL, hits and daily hits of the stored record, or not found, and leaves store and generator unchanged; only the statistics counter is bumped |
| `Handlers.Handlers.AddHandler` | handlers/handlers.go:109-146 | bad request for an empty or invalid URL, the existing abbreviation with nothing changed, or a created one that the URL is then stored under; terminating whenever the randString calls made return; only the new-URL counter is bumped |
| `Handlers.Handlers.DeleteHandler` | handlers/handlers.go:148-160 | the abbreviation is gone, every other one is indexed as before, and the answer is deleted; only the delete counter is bumped |
| `Handlers.CountersWrapAround` | handlers/handlers.go:73 | after k requests a counter has grown by k modulo 2^64 |
| `Refinement.RunSimulates` | handlers/handlers.go:72-160 | on a store that simulates the abstract one every sequential run, whatever is drawn, represents it between requests and is answered as it answers |
| `Refinement.CreationSimulates` | dao/abbreviator.go:28-48 | for a URL that is not stored a creation on any simulating store returns if and only if the calls it makes return, with the abstract outcome and a free acceptable abbreviation; otherwise it stops with the abstract store's hits |
| `Refinement.EveryAddIsAnswered` | handlers/handlers.go:109-146 | on any simulating store, in every sequential run whose randString calls return, each valid add is answered with a non-empty abbreviation that then resolves to its URL |
| `Refinement.IssuedLengthsNeverShrink` | dao/abbreviator.go:28-48 | on any simulating store newly issued abbreviations of a sequential run have non-decreasing lengths |
| `History.SimulatingStoresFollowHistory` | handlers/handlers.go:72-160 | on any simulating store each response of each sequential run is determined by the requests and responses before it: Get redirects to the URL of the link or is not found, GetStats shows the link's URL, its counted lookups per day and their total, Delete answers deleted, Add answers bad request, the existing link, a new link, or nothing if and only if a randString call does not return |
| `History.LinkLastsUntilItsDelete` | handlers/handlers.go:72-89 | in such a run a link answered to an add leads to that URL until it is deleted |
| `History.DeletedLinkStaysAway` | handlers/handlers.go:148-160 | in such a run a deleted link is not found, and has no statistics, until an add is given it again |
| `History.FailedSavesAreReported` | handlers/handlers.go:140-145 | on any store an add whose save fails is answered with a server error, any other creation with its abbreviation |
| `StoreAgreement.StoresAgree` | dao/redisdb.go:214-260 | in-memory, SQLite and Redis answers to a run are equal, request by request, if and only if no request asks for a total above the largest int32 |
| `StoreAgreement.StoresAreExactInRange` | dao/postgresdb.go:220-280 | on such a run all four databases, Postgres included, give the exact totals and daily hits of the abstract store |
| `StoreAgreement.BusyLinkPartsTheStores` | dao/sqlitedb.go:225-257 | on a run of an add, n lookups of its abbreviation and a statistics request, the three agree if and only if n is at most the largest int32 |
| `StoreAgreement.BusyLinkAnswers` | dao/redisdb.go:234-237 | what each store answers after n lookups of a link: the in-memory store n modulo 2^32 as a signed number, SQLite an error beyond the largest int32, Redis at most that number, all with the exact daily hits |
| `StoreAgreement.EveryStoreServesAdds` | handlers/handlers.go:109-146 | on each of the four databases valid adds of a returning run are answered with an abbreviation that resolves, and issued lengths never shrink |
| `StoreAgreement.EveryStoreFollowsItsHistory` | handlers/handlers.go:72-160 | this holds of each of the four databases, which differ only in how they report a total |
| `StoreAgreement.AnswersDiffer` | dao/sqlitedb.go:225-257 | two ways of narrowing totals answer a request differently exactly when it asks for a stored total they narrow differently |
| `SqlTables.UpsertAddsOne` | dao/sqlitedb.go:191-197 | the daily upsert adds exactly one hit on that day to the row's daily hits |
| `SqlTables.LockedSaveMeaning` | dao/sqlitedb.go:107-136 | whether or not a refused insert uses up an id: Save returning nil means the URL is stored under exactly one abbreviation, an error means no row changed, and the caller's abbreviation resolves unless the insert was dropped for the URL |
| `SqlTables.InsertStoresTheUrl` | dao/postgresdb.go:106-118 | after the insert statement the URL is stored if and only if the abbreviation was free or the URL was stored |
| `SqlTables.TwoStatementSaveCanLoseTheUrl` | dao/postgresdb.go:102-130 | a concrete interleaving in which Save returns nil and its URL is stored at neither statement |
| `SqlTables.DeletingEitherKeyIsTheSame` | dao/sqlitedb.go:138-158 | deleting a pair by either column deletes the same single row with its daily hits and leaves all other daily hits |
| `SqlRuns.EveryRunIsConsistent` | dao/sqlitedb.go:52-77 | in every interleaving both columns stay unique, ids stay behind the sequence and daily rows keep a live parent |
| `SqlRuns.LockedFlushIsBothHalves` | dao/sqlitedb.go:176-201 | the locked update is the two-statement update without anything in between |
| `SqlRuns.EveryRunBalances` | dao/postgresdb.go:154-199 | in every interleaving a live row's lookups equal its hits plus updates not begun, and its hits equal its daily hits plus half-done updates |
| `SqlRuns.QuiescentRunsAgree` | dao/postgresdb.go:170-196 | with no update outstanding lookups, hits and daily hits of every live row are equal |
| `SqlRuns.SqliteStatsAreNeverTorn` | dao/sqlitedb.go:225-287 | in every interleaving of SQLite steps reported hits equal the sum of reported daily hits |
| `SqlRuns.TwoReadStatistics` | dao/postgresdb.go:220-280 | with any steps between the read of the row and the read of its daily hits: hits plus updates begun in between equal the daily hits plus half-done updates if the row is still there, no daily hits otherwise; whole exactly when the two corrections balance |
| `SqlRuns.StatsAreWholeIffNoHalfDoneUpdate` | dao/postgresdb.go:171-196 | when nothing separates the two reads, statistics are whole if and only if no update of that row is between its two statements |
| `SqlRuns.RowsKeepTheirIdentity` | dao/sqlitedb.go:54-56 | an id already given out never denotes another row, abbreviation or URL later |
| `SqlRuns.OldFlushesNeverCreditANewRow` | dao/sqlitedb.go:160-201 | the books of a newly saved row balance against the lookups of that row alone, whatever updates of earlier rows with its abbreviation or URL are outstanding |
| `SqlRuns.UnreadNewRowStaysEmpty` | dao/sqlitedb.go:160-201 | so a new row that is not looked up keeps zero hits and no daily hits |
| `SqlRuns.RetargetingNeedsADelete` | dao/sqlitedb.go:107-158 | if a later lookup of a stored abbreviation finds another URL, a delete of that pair lies in between |
| `SqlRuns.TwoStatementSaveMeaning` | dao/postgresdb.go:102-130 | from any consistent state: every run of others between insert and check after which Save returns nil has the URL stored at the insert or at the check, if and only if the insert meets a free abbreviation or a stored URL |
| `SqlDB.SqlDB.ExecInsert` | dao/postgresdb.go:106-118 | inserts one row with no hits when both columns are free, reports which column was taken otherwise, changes no other row, and uses up an id as the sequence of this database does |
| `SqlDB.SqlDB.Verify` | dao/postgresdb.go:120-127 | succeeds exactly when no row binds the abbreviation to another URL |
| `SqlDB.SqlDB.Save` | dao/sqlitedb.go:107-136 | insert and check under one lock: after nil exactly one row has the URL, after an error no row has changed and the abbreviation has another URL |
| `SqlDB.SqlDB.DeleteAbv` | dao/sqlitedb.go:138-147 | exactly the rows with the abbreviation disappear; every other row and its daily hits are kept, and no daily hits are left without a row |
| `SqlDB.SqlDB.DeleteUrl` | dao/sqlitedb.go:149-158 | exactly the rows with the URL disappear; every other row and its daily hits are kept, and no daily hits are left without a row |
| `SqlDB.SqlDB.GetUrl` | dao/sqlitedb.go:160-204 | returns the stored URL and leaves one more update of exactly that row outstanding |
| `SqlDB.SqlDB.BeginFlush` | dao/postgresdb.go:175-184 | adds one hit to that row if it is still there, to no other row, and to no daily hits |
| `SqlDB.SqlDB.EndFlush` | dao/postgresdb.go:186-195 | adds one daily hit to that row and to no other; without the row no daily hits appear |
| `SqlDB.SqlDB.Flush` | dao/sqlitedb.go:176-201 | both statements as one step |
| `SqlDB.SqlDB.GetAbv` | dao/sqlitedb.go:206-223 | the abbreviation stored for the URL, or empty |
| `SqlDB.SqlDB.ReadDailyHits` | dao/postgresdb.go:254-280 | collects exactly the daily rows of one row into a map |
| `SqlDB.SqlDB.GetStats` | dao/sqlitedb.go:225-287 | the row with all its daily rows, failing when the total does not fit an int32; lookups so far are the hits reported plus updates not begun, and hits exceed daily hits by half-done updates |
| `SqlSimulation.BackgroundStepsRepresent` | dao/postgresdb.go:170-196 | any outstanding update step, in any order, leaves unchanged what the store is worth |
| `SqlSimulation.SqlSimulates` | dao/sqlitedb.go:107-287 | both SQL stores simulate the abstract store |
| `AddProtocol.EverySuccessHadItsUrlStored` | handlers/handlers.go:129-145 | in every interleaving each successful add has an instant between its arrival and its reply at which its URL is stored, provided that no Postgres insert of its own meets its abbreviation without its URL |
| `AddProtocol.EverySqliteSuccessHadItsUrlStored` | handlers/handlers.go:129-145 | on SQLite, whose Save is one locked step, this holds of every success without a condition |
| `AddProtocol.PostgresSuccessNeedsASoundInsert` | dao/postgresdb.go:102-130 | on Postgres the condition is exact: from the insert on, every continuation that ends in success has an instant with the URL stored, if and only if the insert meets a free abbreviation or a stored URL |
| `AddProtocol.ReplyResolvesIff` | handlers/handlers.go:129-145 | whichever event gives a successful reply on the SQL stores: its abbreviation resolves to the URL, always at the first check; at the insert if and only if it was taken or the URL was not stored by another request; at Postgres' later check if and only if it is still stored |
| `AddProtocol.LateCheckReturnsADeadLink` | dao/postgresdb.go:102-130 | the insert meets the request's own pair, a delete follows, and the later check answers success for an abbreviation that is no longer stored |
| `AddProtocol.RacingAddsReturnADeadLink` | handlers/handlers.go:129-145 | on both SQL stores two concurrent adds of one URL both succeed and the second returns an abbreviation that is not stored |
| `AddAnswers.EventsMoveRequests` | handlers/handlers.go:129-145 | what each event does to a request on a SQL store, told from the rows that it meets: the first check answers with the stored abbreviation of the URL or lets the request go on, and the save answers with success unless a row binds the abbreviation to another URL |
| `AddAnswers.AddEventsOnlyInsert` | dao/sqlitedb.go:107-136 | all that an add ever does to the tables is to insert a row without hits for a pair that is free, so no add retargets or removes a link |
| `AddAnswers.ReplyIffGiven` | handlers/handlers.go:129-145 | in every interleaving an add ends up with a reply if and only if an event of the run gives it that reply; it fails if and only if its save meets its abbreviation bound to another URL |
| `AddAnswers.PostgresAnswersWhatSaveReturns` | dao/postgresdb.go:102-130 | after an insert, any steps of others and the check, the request is answered by exactly what Save returns |
| `RedisKeys.KeysAreSeparate` | dao/redisdb.go:18-22 | the three prefixed encodings are injective and pairwise disjoint for arbitrary strings |
| `RedisKeys.HitTxEffect` | dao/redisdb.go:184-190 | a hit update adds one hit and one daily hit to its abbreviation and touches no other abbreviation or URL |
| `RedisKeys.StoreTxEffect` | dao/redisdb.go:85-91 | a save resets the hits of its abbreviation, keeps all daily hits, and touches no other pair |
| `RedisKeys.EraseTxEffect` | dao/redisdb.go:118-122 | a delete removes the record, the daily hits and the URL key, and touches no other pair |
| `RedisRuns.EveryRunIsTyped` | dao/redisdb.go:72-194 | in every interleaving each key holds the type its prefix says, so no command is refused |
| `RedisRuns.EveryRunAccounts` | dao/redisdb.go:72-194 | in every interleaving hits count the updates since the last save or delete ran, daily hits those since the last delete ran |
| `RedisRuns.HitsNeverExceedDailyHits` | dao/redisdb.go:72-194 | in every interleaving stored hits never exceed the sum of daily hits |
| `RedisRuns.TwoReadStatistics` | dao/redisdb.go:214-260 | with any steps between the two reads: the daily hits reported are those at the first read plus the updates performed, or those since the last delete performed; reported hits stay within them if and only if no delete was performed or the updates since the last one make up for them |
| `RedisRuns.TwoReadsAgreeIffNoHits` | dao/redisdb.go:214-260 | reported hits stay within reported daily hits whatever comes between the reads, if and only if the record read has no hits |
| `RedisRuns.DeleteBetweenReadsTearsStatistics` | dao/redisdb.go:214-260 | with a delete in between, any record with hits is reported without daily hits |
| `RedisRuns.DeletingEitherKeyIsTheSame` | dao/redisdb.go:100-160 | both deletes of a stored pair queue the same transaction, which leaves every other pair and its statistics untouched |
| `RedisRuns.DeleteRemovesIffUrl` | dao/redisdb.go:100-129 | a delete leaves no record and no statistics if and only if the record had a URL or did not exist |
| `RedisRuns.AnyRecordCanBeRecreated` | dao/redisdb.go:162-195 | a lookup, a delete and the late hit update leave a record with one hit and no URL |
| `RedisRuns.StaysDeletedIffNoLateHit` | dao/redisdb.go:175-192 | a missing record stays missing through all runs that do not store its abbreviation, if and only if no hit update of it is outstanding |
| `RedisPairing.TransactionKeepsPairing` | dao/redisdb.go:72-160 | a transaction keeps records and URL keys inverse if and only if it meets its abbreviation and URL unbound or bound to each other |
| `RedisPairing.RunStaysPairedIffItsTransactionsFit` | dao/redisdb.go:72-194 | in every interleaving records and URL keys stay inverse at every state if and only if each transaction performed meets such a pair |
| `RedisPairing.RacingSavesUnpair` | dao/redisdb.go:72-98 | two concurrent saves of a free abbreviation with different URLs both pass the check; both URL keys then name it and its record names the second URL |
| `RedisAddProtocol.EverySuccessHadItsUrlStored` | handlers/handlers.go:129-145 | in every interleaving each successful add on Redis has an instant between arrival and reply at which its URL key names the abbreviation it is answered with |
| `RedisAddProtocol.ReplyNamesTheStoredKey` | handlers/handlers.go:129-145 | the answering event leaves the URL key naming the abbreviation; it resolves to the URL after the save's transaction, and after the first check whenever the keys are inverse |
| `RedisAddProtocol.RacingAddsShareAnAbbreviation` | handlers/handlers.go:129-145 | two concurrent adds of different URLs both succeed with one abbreviation, which leads to the second URL and is given again to a later add of the first |
| `RedisAddAnswers.EventsMoveRequests` | dao/redisdb.go:79-83 | what each event does to a request on Redis, told from the keys that it meets; the check of a save fails the request if and only if the record names another non-empty URL |
| `RedisAddAnswers.AddEventsOnlyStore` | dao/redisdb.go:85-97 | the only add event that writes is the transaction of a save that has passed its check; it binds the pair both ways and leaves all others alone |
| `RedisAddAnswers.ReplyIffGiven` | handlers/handlers.go:129-145 | in every interleaving an add on Redis ends up with a reply if and only if an event of the run gives it that reply; it fails if and only if its check finds its abbreviation bound to another URL |
| `RedisAddAnswers.RefusedAddsWriteNothing` | dao/redisdb.go:79-83 | an add whose own check finds its abbreviation bound to another URL fails, and in the whole run no event of it writes anything |
| `RedisAddAnswers.LateTransactionOverwrites` | dao/redisdb.go:72-98 | whatever others do after the check of a save, its transaction then binds the pair, even over another URL bound in the meantime |
| `RedisDB.RedisDB.BeginSave` | dao/redisdb.go:72-83 | fails exactly when the abbreviation is bound to another non-empty URL, and otherwise prepares the store transaction |
| `RedisDB.RedisDB.BeginDeleteAbv` | dao/redisdb.go:100-116 | prepares the erasure of the record and of the URL it holds when it has one |
| `RedisDB.RedisDB.BeginDeleteUrl` | dao/redisdb.go:131-147 | prepares the erasure of the URL and of the abbreviation stored for it |
| `RedisDB.RedisDB.RunStore` | dao/redisdb.go:85-97 | binds the pair both ways, restarts its hits, keeps its daily hits and every other pair; other steps may come between the read and this transaction |
| `RedisDB.RedisDB.RunErase` | dao/redisdb.go:118-128 | leaves neither key of the pair nor statistics, and every other pair as it was |
| `RedisDB.RedisDB.Save` | dao/redisdb.go:72-98 | with any steps of others between read and transaction: fails exactly when the read finds another non-empty URL, and otherwise binds the pair both ways with no hits in the keys the transaction meets, keeping all other pairs |
| `RedisDB.RedisDB.DeleteAbv` | dao/redisdb.go:100-129 | with any steps of others between read and transaction: erases the pair that the read finds from the keys the transaction meets, keeping all others; does nothing when the read finds no URL |
| `RedisDB.RedisDB.DeleteUrl` | dao/redisdb.go:131-160 | with any steps of others between read and transaction: erases the pair that the read finds from the keys the transaction meets, keeping all others; does nothing when the read finds no URL key |
| `RedisDB.RedisDB.GetUrl` | dao/redisdb.go:162-195 | returns the URL and leaves one hit update outstanding exactly when the record has one |
| `RedisDB.RedisDB.RunHit` | dao/redisdb.go:176-190 | adds one hit and one daily hit to that abbreviation, changing no binding and no other statistics |
| `RedisDB.RedisDB.GetAbv` | dao/redisdb.go:197-212 | the abbreviation under the URL key, or empty |
| `RedisDB.RedisDB.ReadDailyHits` | dao/redisdb.go:245-259 | collects the daily hash of the abbreviation into a map of numbers |
| `RedisDB.RedisDB.GetStats` | dao/redisdb.go:214-260 | with any steps of others between the two reads: the record of the first with its total saturated to an int32, the daily hits of the second; hits stay within them exactly when no delete came in between or later updates make up for it |
| `RedisSimulation.RedisSimulates` | dao/redisdb.go:72-260 | the Redis store simulates the abstract store, in whatever order its hit updates run |

## Left out

- Echo routing, HTTP, JSON decoding, URL parsing, HTML templates, middleware and telemetry: each handler is a store-level operation, and whether the URL parses is a parameter.
- Failing database statements, timeouts and connections: statements succeed, so the error branch at dao/abbreviator.go:39-42 and the 500 answers that come from a failing GetUrl are not reached.
- The data race on the key size and the random source: generator runs are sequential, and the concurrent add request takes an arbitrary abbreviation.
- Integer ranges of the databases: stored totals, daily counts and ids are unbounded (32-bit columns in Postgres, 64-bit elsewhere); the int32 field of the returned statistics is modelled, and so is the int32 counter of the in-memory record.
- StoreAgreement.StoresAgree: above the largest int32 speaks of SQLite as the SQL store, not of Postgres, whose 32-bit column makes the update of the row fail; for Postgres only StoreAgreement.StoresAreExactInRange is claimed.
- Abbreviator.Abbreviator.CreateAbbreviation: runs on the in-memory store; on the other stores the same loop is the function Generator.CreateAbbreviation over their operations.
- last_access and created_at: written but not compared; only the Redis field that records the access is kept, since it makes a hash exist.
- The local-time day of one store against the UTC day of another, and Postgres column widths: one logical clock, unbounded strings.
- dao/mongodao.go and dao/mysqldb.go: the first relies on server behaviour that its source does not show, the second is unique only on a prefix of the URL and can drop a save silently.
- Probabilities: nothing is said about how likely a stream of draws is, and a randString call need not return on every stream; what a run does up to such a call is modelled, and that it gets no further.
- The literal table of forbidden words: a parameter with the fact stated above.
- status, env, server start-up, request metrics other than the four request counters, k6 scripts and container files.
