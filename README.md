# Smart Memory MCP core, modelled in Dafny

Smart Memory MCP is a local memory engine for an AI coding assistant. It
stores memories (pieces of text with a category, a mode and metadata) and
counts their tokens. On request it assembles a context from them: the
memories are scored for relevance, those above a threshold are selected
greedily under a token budget, and their contents are concatenated. Around
this pipeline sit several bookkeeping components:

- memory-bank configuration;
- version strings;
- crash-recovery counters;
- database backups, with naming, listing and rotation;
- a levelled logger with file rotation.

This project models those parts in Dafny and proves the promises their code
makes.

- `wrappers.dfy`: `Option` and `Result`.
- `text.dfy`: the string functions the code relies on:
  - `split_whitespace`, `split`, case mapping and UTF-8 length;
  - decimal printing, and parsing of unsigned integers with a width bound.
- `sums.dfy`: sums over finite maps.
- `sorting.dfy`: a stable descending sort and its stability.
- `tokens.dfy`: `TokenCount` with its sum and conversions, the `usize as f32` rounding of the length heuristic, and the tokenizer's counting strategies.
- `memory.dfy`: `Memory`, plus two classes. `Repository` is the map-backed repository. `MemoryStore` is the write-through cache.
- `relevance.dfy`: the tf-idf scorer:
  - the score clamp;
  - the document-frequency table, built by nested loops;
  - the metadata score;
  - the stable sort of `score_memories`.
- `optimizer.dfy`: the greedy threshold-and-budget selection, a loop, proved against the predicate `GreedyPrefix`.
- `bank_config.dfy`: the default memory-bank configuration and its lookups with fallback.
- `version.dfy`: the version parser, comparator and printer, plus the `VersionManager` class.
- `memory_service.dfy`: the code inside the service handlers:
  - loading and filtering memories;
  - context assembly;
  - `store_memory_bank` argument normalisation;
  - statistics grouping;
  - the UMB multi-category store.
- `crash_recovery.dfy`: the recovery state and `CrashRecoveryManager`.
- `backup.dfy`: `BackupManager` over a `Disk`. The disk holds the backup directory and the other files, each as a map from name to entry.
- `logging.dfy`: log levels, entries, and the `Logger` class with its file filter, console filter and index-shifting rotation.

The environment enters only through parameters:

- clock readings and generated ids;
- the outcome of storage calls (`fault`);
- loading a tokenizer model;
- the `.meta` serialisation (`MetaCodec`);
- whether a process is running;
- the order in which a directory is read (chosen nondeterministically).

## Model

| member | source | states |
|---|---|---|
| Tokens.FromUsize | core/src/storage/tokenizer.rs:40-44 | converting a count to a `TokenCount` keeps the number |
| Tokens.ToUsize | core/src/storage/tokenizer.rs:46-50 | converting back to `usize` is the inverse of `From<usize>` |
| Tokens.SumFromShift | core/src/storage/tokenizer.rs:52-56 | the fold's starting value only adds to the sum |
| Tokens.SumEmpty | core/src/storage/tokenizer.rs:52-56 | the sum of no counts is 0 |
| Tokens.SumConcat | core/src/storage/tokenizer.rs:26-56 | the sum of a concatenation is the `Add` of the sums of its parts |
| Tokens.RoundToMultiple | core/src/storage/tokenizer.rs:180 | rounding to the nearest multiple of the spacing, ties to even, is off by at most half the spacing |
| Tokens.ToF32Error | core/src/storage/tokenizer.rs:180 | `usize as f32` is exact below 2^24 and otherwise within n / 2^24 of n |
| Tokens.ToF32TieToEven | core/src/storage/tokenizer.rs:180 | 2^24 + 3, halfway between two f32 values, rounds to the even one, 2^24 + 4 |
| Tokens.ApproximateCount | core/src/storage/tokenizer.rs:178-182 | the fallback count is at least 1, and otherwise the quarter, truncated, of the UTF-8 length converted to f32 (so exactly len / 4 below 2^24 bytes) |
| Tokens.ApproximateCountNearLength | core/src/storage/tokenizer.rs:178-182 | for texts of at least 8 bytes, four times the count is within len / 2^24 of the length, up to the truncation of the quarter |
| Tokens.ApproximateCountRoundsUp | core/src/storage/tokenizer.rs:178-182 | a text of 2^24 + 3 bytes gets 2^22 + 1 tokens, one more than the exact quarter of its length |
| Tokens.CountTokens | core/src/storage/tokenizer.rs:160-186 | Simple counts whitespace-separated words, so the count is 0 iff the text is blank; a model strategy uses the model's encoding when there is one, else the fallback, which is at least 1; the function is total |
| Tokens.NewTokenizer | core/src/storage/tokenizer.rs:80-99 | `new(Simple)` always succeeds without a model; the model strategies succeed iff loading does, and keep the loaded model |
| Tokens.DefaultTokenizer | core/src/storage/tokenizer.rs:188-197 | the default is Simple without a model, and it counts words for every text |
| Text.Words | core/src/storage/tokenizer.rs:162-166 | every word is non-empty and free of whitespace |
| Text.NoWordsIffAllWhitespace | core/src/storage/tokenizer.rs:162-166 | a text has no words exactly when it is empty or all whitespace |
| Text.WordsOfJoin | core/src/storage/tokenizer.rs:162-166 | the words of `a c b`, where c is whitespace, are the words of a followed by the words of b |
| Text.JoinSplit | core/src/version.rs:37-75 | joining the pieces of `split(c)` with c gives the string back |
| Text.ParseNatToString | core/src/version.rs:37-49 | printing an unsigned value below the bound and parsing it back gives the value |
| Memories.Memory.Touch | core/src/storage/memory.rs:91-95 | only the access time changes, and it becomes the given time |
| Memories.NewMemory | core/src/storage/memory.rs:65-89 | fields are as given; the token count is the tokenizer's count of the content; creation and access times are both the clock reading |
| Memories.Repository.InMemory | core/src/storage/memory.rs:203-210 | an in-memory repository starts empty and never fails |
| Memories.Repository.Opened | core/src/storage/memory.rs:121-131 | a durable repository opened over the memories already in the database (each stored under its own id) holds exactly those memories, and its calls can fail |
| Memories.Repository.Store | core/src/storage/memory.rs:214-218 | insert or replace under the memory's id, or report the backend's error and change nothing |
| Memories.Repository.Retrieve | core/src/storage/memory.rs:220-223 | the stored memory, if any |
| Memories.Repository.Touch | core/src/storage/memory.rs:225-231 | touches a stored memory; an absent id is a no-op `Ok` |
| Memories.Repository.GetAllIds | core/src/storage/memory.rs:233-236 | every stored id exactly once |
| Memories.Repository.TotalTokens | core/src/storage/memory.rs:238-241 | the sum of the token counts of all stored memories |
| Memories.MemoryStore.NewInMemory | core/src/storage/memory.rs:109-118 | a store over a fresh, empty in-memory repository, with an empty cache |
| Memories.MemoryStore.NewDurable | core/src/storage/memory.rs:121-131 | a store over a durable repository, with an empty cache |
| Memories.MemoryStore.Store | core/src/storage/memory.rs:134-152 | on success the repository and the cache both map the new id to the returned memory; on failure the error is returned and the repository and cache are unchanged |
| Memories.MemoryStore.Retrieve | core/src/storage/memory.rs:155-181 | on a hit the cached memory is touched and returned, and the repository's copy is touched too; on a miss the repository's value is returned and cached if present; an absent id leaves the cache unchanged |
| Memories.MemoryStore.GetAllIds | core/src/storage/memory.rs:184-186 | the repository's ids, each once; the cache is not consulted |
| Memories.MemoryStore.TotalTokens | core/src/storage/memory.rs:189-191 | the repository's token total; the cache is not consulted |
| Relevance.NewScore | core/src/storage/context/relevance.rs:14-17 | the clamped score lies in [0, 1] and equals x when x is already in range |
| Relevance.NewScoreIdempotent | core/src/storage/context/relevance.rs:14-17 | clamping twice is clamping once |
| Relevance.DocCount | core/src/storage/context/relevance.rs:149-172 | a term's document count is at most the number of memories |
| Relevance.AllTermsCounted | core/src/storage/context/relevance.rs:149-172 | a term occurs in some memory iff its document count is positive |
| Relevance.DocumentFrequencies | core/src/storage/context/relevance.rs:149-172 | the table has an entry exactly for terms that occur in some memory, and each entry is that term's count of memories, between 1 and the number of memories |
| Relevance.AddDocument | core/src/storage/context/relevance.rs:160-168 | one more document adds 1 to each of its distinct terms and inserts the new ones |
| Relevance.BuildDocumentFrequencies | core/src/storage/context/relevance.rs:149-172 | the nested loops build exactly the document-frequency table |
| Relevance.NewScorer | core/src/storage/context/relevance.rs:52-80 | weight tables for "code", "architect" and "debug", with four weights each, all strictly between 0 and 1 |
| Relevance.ModeTable | core/src/storage/context/relevance.rs:91-94 | the mode's own table, else the "code" table, else an empty table |
| Relevance.UnknownModeUsesCode | core/src/storage/context/relevance.rs:91-94 | with the standard tables, an unknown mode is scored with the "code" weights |
| Relevance.MetadataScore | core/src/storage/context/relevance.rs:96-102 | the sum over the memory's metadata keys of their weights (0.1 for a key the table lacks), divided by max(1, table size) |
| Relevance.MetadataScoreBounds | core/src/storage/context/relevance.rs:96-102 | with weights in [0, 1], the metadata score lies between 0 and the number of keys over the table size |
| Relevance.Relevance | core/src/storage/context/relevance.rs:142-145 | the combined score is clamped into [0, 1] |
| Relevance.ScoreEach | core/src/storage/context/relevance.rs:186-206 | one scored entry per memory, in input order |
| Relevance.ScoreMemories | core/src/storage/context/relevance.rs:181-213 | a permutation of the scored inputs, one per memory, sorted by descending score; equal scores keep their input order |
| Sorting.SortDesc | core/src/storage/context/relevance.rs:210 | the output is a permutation of the input, sorted by descending key |
| Sorting.InsertDescSorted | core/src/storage/context/relevance.rs:210 | inserting into a sequence sorted by descending key keeps it sorted |
| Sorting.InsertDescStable | core/src/storage/context/relevance.rs:210 | an inserted element passes only elements with other keys, so each key's elements keep their order |
| Sorting.SortDescStable | core/src/storage/context/relevance.rs:210 | for each key value, elements with that key keep their input order |
| Optimizer.EligibleMembers | core/src/storage/context/optimizer.rs:46-50 | an element is eligible exactly when it is in the input and its score is at least the threshold, so a score equal to the threshold is eligible |
| Optimizer.EligibleAppend | core/src/storage/context/optimizer.rs:46-50 | filtering a concatenation filters each part |
| Optimizer.Optimize | core/src/storage/context/optimizer.rs:36-72 | the output satisfies `GreedyPrefix`: it is a prefix of the eligible inputs; it is non-empty when any input is eligible; it stays within the budget unless it is the single first eligible memory; it stops only where one more memory would exceed the budget. Every output element is an input element at or above the threshold |
| Optimizer.GreedyPrefixStartsWithFirst | core/src/storage/context/optimizer.rs:53-67 | a non-empty selection starts with the first eligible memory |
| Optimizer.NothingEligibleNothingSelected | core/src/storage/context/optimizer.rs:42-71 | when nothing meets the threshold, nothing is selected |
| Optimizer.AllFitAllSelected | core/src/storage/context/optimizer.rs:53-67 | when all eligible memories fit the budget, all are selected |
| Optimizer.OversizedFirstIsAlone | core/src/storage/context/optimizer.rs:53-67 | an oversized first eligible memory is selected alone |
| Optimizer.GreedyPrefixUnique | core/src/storage/context/optimizer.rs:36-72 | the promise determines the selection uniquely |
| BankConfig.DefaultConfig | core/src/storage/memory_bank_config.rs:79-124 | exactly five categories with their budgets and priorities; a 50000-token total enforced per category; threshold 0.7 with the recency boost; both update triggers on |
| BankConfig.GetMaxTokens | core/src/storage/memory_bank_config.rs:154-162 | the category's budget, or 1000 for an unknown category |
| BankConfig.GetPriority | core/src/storage/memory_bank_config.rs:164-170 | the category's priority, or Medium for an unknown category |
| BankConfig.DefaultBudgetsWithinTotal | core/src/storage/memory_bank_config.rs:80-113 | the default category budgets sum to 38000, within the 50000 total |
| BankConfig.LookupWithinSum | core/src/storage/memory_bank_config.rs:154-162 | for any configuration, a configured category's budget is at most the sum of all budgets; so when the budgets add up to at most the total and the total is at least the 1000 fallback, no lookup exceeds the total |
| BankConfig.BudgetsUpdate | core/src/storage/memory_bank_config.rs:66-76 | inserting a category into the public `categories` map changes the sum of budgets by the new budget minus the replaced one (0 for a new category) |
| Versions.NewVersion | core/src/version.rs:26-34 | the given numbers, without pre-release or build |
| Versions.ParseU32 | core/src/version.rs:43-49 | parses exactly the u32 numerals |
| Versions.Parse | core/src/version.rs:37-75 | success iff the text before the first '-' has at least three '.'-parts, the first three being u32 numerals; the numbers are those numerals; there is a pre-release tag iff the text contains '-'; without '-' there is no build |
| Versions.FromParts | core/src/version.rs:40-75 | a pre-release tag iff there are several '-'-parts; a single part gives no build |
| Versions.FromPartsIgnoresRest | core/src/version.rs:55-66 | only the first three '-'-parts matter, and the third only when it starts with '+' |
| Versions.FromPartsThirdBuild | core/src/version.rs:64-66 | a third '-'-part starting with '+' sets the build, and changes nothing else |
| Versions.ParseTagAndBuild | core/src/version.rs:55-62 | `core-pre+build` parses to core's numbers with that tag and build, and a text after a second '+' is dropped |
| Versions.ParseThirdPartBuild | core/src/version.rs:64-66 | `core-tag-+b` parses like `core-tag` but with build b, replacing any build in the tag part; anything after a further '-' is dropped |
| Versions.ParseThirdPartDropped | core/src/version.rs:64-66 | a third '-'-part that does not start with '+' is dropped with everything after it: the text parses like `core-tag` |
| Versions.SplitOnlyWhenPresent | core/src/version.rs:39-55 | a string splits into several pieces exactly when it contains the separator |
| Versions.NumbersShape | core/src/version.rs:152-155 | `M.m.p` contains no '-' or '+', and it splits on '.' into its three numerals |
| Versions.ParseToString | core/src/version.rs:37-75 | printing then parsing gives the version back, provided its tags contain no '-' or '+' and it does not have a build without a pre-release tag |
| Versions.BuildWithoutPreReleaseIsUnreadable | core/src/version.rs:37-75 | a printed `M.m.p+build` does not parse |
| Versions.ParseIntended | core/src/version.rs:37-75 | the corrected parser finds a build exactly when the text contains '+' |
| Versions.ParseIntendedToString | core/src/version.rs:37-75 | the corrected parser reads back every printed version with plain tags |
| Versions.CompareNumbers | core/src/version.rs:80-93 | `u32::cmp` |
| Versions.CompareStringsReverse | core/src/version.rs:99 | swapping the strings reverses their order |
| Versions.CompareStringsEqual | core/src/version.rs:99 | strings compare equal iff they are equal |
| Versions.CompareStringsTransitive | core/src/version.rs:99 | the string order is transitive |
| Versions.Compare | core/src/version.rs:78-105 | compares by major, then minor, then patch; on equal numbers a release is above a pre-release, and two pre-release tags compare as whole strings; build metadata is ignored |
| Versions.CompareReverse | core/src/version.rs:78-105 | swapping the operands reverses the result |
| Versions.GreaterIffLess | core/src/version.rs:107-120 | a > b iff b < a, and exactly one of <, = and > holds |
| Versions.EqualIgnoresBuild | core/src/version.rs:96-120 | versions are equal iff they differ only in build metadata |
| Versions.LessTransitive | core/src/version.rs:78-115 | the order is transitive |
| Versions.PreReleaseComparedAsText | core/src/version.rs:99 | "alpha.10" sorts before "alpha.2": pre-release tags are compared as text |
| Versions.LookupUpdate | core/src/version.rs:144-148 | the lookup always reports no newer version |
| Versions.VersionManager.constructor | core/src/version.rs:179-187 | manages the current version, with no latest version and no update |
| Versions.VersionManager.CheckForUpdates | core/src/version.rs:190-212 | a lookup error is passed on and nothing changes; with no newer version the flag is cleared; a reported version is recorded, and the flag says whether it is newer than the current one |
| Versions.Init | core/src/version.rs:230-235 | a manager for the current version, after a check, with no update available |
| MemoryService.AsU32 | core/src/service/memory_service.rs:292 | the `as u32` cast gives a value below 2^32, and leaves smaller values unchanged |
| MemoryService.LoadMemories | core/src/service/memory_service.rs:456-486 | a failed listing or retrieval is an internal error; the stored ids are unchanged and stored memories change only in access time; on success the result is `LoadedFrom` the stored memories: distinct ids, every memory a stored one (up to access time) passing the filter, and every stored memory passing the filter loaded; without faults the call succeeds |
| MemoryService.LoadedPrefixStep | core/src/service/memory_service.rs:466-485 | one turn of the loop (retrieve, filter, push) keeps the loop invariant `LoadedPrefix` |
| MemoryService.LoadedPrefixDone | core/src/service/memory_service.rs:456-486 | after the last listed id the loop invariant gives `LoadedFrom` |
| MemoryService.LoadOne | core/src/service/memory_service.rs:456-486 | one retrieval followed by the category and date filters |
| MemoryService.KeepIgnoresAccess | core/src/service/memory_service.rs:466-485 | the filter reads only the category and metadata |
| MemoryService.RenderedAppend | core/src/service/memory_service.rs:279-282 | rendering a concatenation renders each part |
| MemoryService.RenderedLength | core/src/service/memory_service.rs:279-282 | each memory adds its content and "\n\n" |
| MemoryService.SourceOf | core/src/service/memory_service.rs:285-289 | a source carries the memory's id and score; a memory without a category is labelled "" |
| MemoryService.AssembleContext | core/src/service/memory_service.rs:274-303 | the bundle describes the selection: the contents followed by "\n\n", in order; the token sum cast to u32; the first score, or 0; one source per memory, in order |
| MemoryService.EligibleSorted | core/src/storage/context/optimizer.rs:46-50 | filtering a best-first list keeps it best first |
| MemoryService.BuildContext | core/src/service/memory_service.rs:257-303 | the selection is the greedy budgeted prefix (`GreedyPrefix`) of the candidates, that is, of the scored memories at or above the clamped threshold, best first; spelled out, it comes from the memories, meets the threshold, is best first and stays within the budget unless it is a single memory, and it is non-empty when some memory meets the threshold; the bundle describes it |
| MemoryService.CandidatesMembers | core/src/storage/context/optimizer.rs:36-50 | the candidates are best first, and a scored memory is a candidate iff its score is at least the clamped threshold |
| MemoryService.GreedySelection | core/src/storage/context/optimizer.rs:36-72 | any greedy budgeted prefix of the candidates comes from the memories, meets the threshold, is best first, keeps to the budget unless single, and is non-empty when some memory meets the threshold |
| MemoryService.ContextOfUnique | core/src/service/memory_service.rs:257-303 | for given loaded memories the context response is determined: two responses satisfying `ContextOf` are equal |
| MemoryService.ContextEmptyIff | core/src/service/memory_service.rs:257-303 | the response has no sources iff no loaded memory scores at least the clamped threshold, and then its text is "", its token count 0 and its score 0 |
| MemoryService.GetContext | core/src/service/memory_service.rs:238-303 | on success the response is `ContextFrom` every stored memory before the call, labelled by content type: the unique response (`ContextOfUnique`) for some load of all of them; storage failures are internal errors, and a fault-free call succeeds; every stored memory keeps its id and changes at most in its access time |
| MemoryService.GetMemoryBankContext | core/src/service/memory_service.rs:450-537 | on success the response is `ContextFrom` the stored memories that pass the category and date filters, labelled by category; storage failures are internal errors, and a fault-free call succeeds; every stored memory keeps its id and changes at most in its access time |
| MemoryService.ContextHandler | core/src/service/memory_service.rs:244-303 | load, score, select and assemble: on success the response is the `ContextOf` a `LoadedFrom` load of the memories stored before the call; every stored memory keeps its id and changes at most in its access time, as retrieval only touches |
| MemoryService.NormaliseBankRequest | core/src/service/memory_service.rs:421-428 | an empty category or mode becomes None; a non-empty date is stored under "date", and every other metadata key is kept |
| MemoryService.StoreMemoryBank | core/src/service/memory_service.rs:414-448 | stores the normalised memory as "text/markdown" and reports its id, its token count cast to u32, and the category; a storage failure is an internal error with nothing stored |
| MemoryService.StoredBankEntryIsKept | core/src/service/memory_service.rs:421-485 | an entry stored with a category is found by a request for that category and its date; one stored without a category is never found by a request that names categories |
| MemoryService.CategoryKeys | core/src/service/memory_service.rs:630 | each memory's key is its category, or "uncategorized" |
| MemoryService.CategoryCountIsMultiplicity | core/src/service/memory_service.rs:629-638 | a key's count is its number of occurrences |
| MemoryService.TruncationHarmless | core/src/service/memory_service.rs:633-634 | when every count is below 2^32, the per-memory cast changes nothing |
| MemoryService.GroupByCategory | core/src/service/memory_service.rs:624-638 | per key, the number of memories and their u32-cast token counts; the counts add up to the number of memories, and the tokens to the total of the cast counts |
| MemoryService.GroupOne | core/src/service/memory_service.rs:629-638 | one memory adds to its key's entries, inserting 0 for a new key |
| MemoryService.CountsStep | core/src/service/memory_service.rs:637 | counting one more memory extends the counts |
| MemoryService.TokensStep | core/src/service/memory_service.rs:633-634 | adding one more memory's tokens extends the sums |
| MemoryService.CategoryTokensAbsent | core/src/service/memory_service.rs:642 | a key that no memory has collects no tokens |
| MemoryService.CategoryStatsOf | core/src/service/memory_service.rs:641-658 | one entry per counted key (as many entries as keys), no key twice, each with its count, its tokens (0 if missing), average relevance 0.75 and today's date |
| MemoryService.StatsOf | core/src/service/memory_service.rs:617-666 | `StatsDescribe`: totals cast to u32; a key is listed iff some memory has it, with its count and u32-cast token sum; the tokens map has the same keys; one entry per key as `CategoryStatsOf` states; the counts add up to the number of memories and the tokens to the cast token total |
| MemoryService.GetMemoryBankStats | core/src/service/memory_service.rs:598-666 | on success `StatsOfStore` of the memories stored before the call: totals over the store cast to u32, a key listed iff some stored memory has it, its number of stored memories and their cast token sum, one entry per key; storage failures are internal errors; every stored memory keeps its id and changes at most in its access time |
| MemoryService.LoadedStats | core/src/service/memory_service.rs:598-666 | the statistics of an unfiltered load are the statistics of the store |
| MemoryService.LoadedSplit | core/src/service/memory_service.rs:456-486 | dropping the last memory of an unfiltered load leaves an unfiltered load of the other stored memories |
| MemoryService.LoadedCount | core/src/service/memory_service.rs:618 | an unfiltered load has as many memories as the store |
| MemoryService.LoadedTokens | core/src/service/memory_service.rs:619-621 | an unfiltered load carries the store's token total |
| MemoryService.LoadedCategoryCount | core/src/service/memory_service.rs:629-638 | in an unfiltered load a key occurs as often as stored memories have it |
| MemoryService.LoadedCategoryTokens | core/src/service/memory_service.rs:629-638 | in an unfiltered load a key's cast tokens are the sum over the stored memories with that key |
| MemoryService.KeyIdsRemove | core/src/service/memory_service.rs:629-638 | removing a stored memory removes its id from its own key's ids only |
| MemoryService.KeysAreStored | core/src/service/memory_service.rs:604-638 | the keys of the loaded memories are keys of stored memories |
| MemoryService.SucceededMembers | core/src/service/memory_service.rs:694-723 | exactly the categories whose store did not fail, in order |
| MemoryService.UmbStoreOne | core/src/service/memory_service.rs:703-721 | one store fails exactly when the durable backend fails; on success it reports the context's token count and the repository gains, under the new id, `Memory::new` of the context as "text/markdown" with the category, the mode and the metadata, nothing else changing; on failure the repository is unchanged |
| MemoryService.UmbMemory | core/src/service/memory_service.rs:703-709 | the stored memory: the context as "text/markdown", with the category, the mode, the metadata, the given token count and the clock reading as both times |
| MemoryService.UmbStoresContents | core/src/service/memory_service.rs:701-719 | for all inputs, when distinct categories get distinct ids: each succeeded category's id holds its `UmbMemory`, every other earlier memory is as it was, and no other key appears |
| MemoryService.UmbStoresKeys | core/src/service/memory_service.rs:701-719 | for all inputs: every earlier key stays and each succeeded category's id is present |
| MemoryService.UmbResultExtend | core/src/service/memory_service.rs:710-713 | one more successful store, under an id unlike the earlier ones, keeps `UmbResult` |
| MemoryService.UmbStoreNext | core/src/service/memory_service.rs:701-718 | one turn of the loop: from the state after i categories (`Succeeded`, the count, `Times` tokens, `UmbStores`) to the state after i + 1 |
| MemoryService.UmbStoreEach | core/src/service/memory_service.rs:689-719 | the loop: the succeeded categories, their number, their tokens added one store at a time, and the repository as `UmbStores` of the one before |
| MemoryService.HandleUmb | core/src/service/memory_service.rs:671-735 | stores into context, decision and progress, in that order; the stored count is the number of successes, at most 3, and success iff it is positive; tokens are count × the context's token count, cast to u32; the message reports both; the repository is `UmbStores` of the one before and, when the three ids differ, holds each succeeded category's `UmbMemory` under its id with every other memory as it was (`UmbResult`) |
| MemoryService.UmbStoreAll | core/src/service/memory_service.rs:689-719 | one store per category in order; the categories that succeeded are `Succeeded`; the count is their number and the token total that number times the context's token count; the repository is `UmbStores` of the one before and, when distinct categories get distinct ids, `UmbResult`: each successful category's id holds its new memory, every other earlier memory keeps its value, and no other key appears |
| CrashRecovery.DefaultState | core/src/crash_recovery.rs:35-51 | no paths, pid or crashes; zero counters; safe mode off |
| CrashRecovery.Crashed | core/src/crash_recovery.rs:125-142 | one more crash, with its time and reason; safe mode on from the third crash and never cleared; nothing else changes |
| CrashRecovery.Reset | core/src/crash_recovery.rs:190-195 | crash count and recovery attempts set to 0, and safe mode off |
| CrashRecovery.CrashedAllCounts | core/src/crash_recovery.rs:125-142 | n crashes add n to the count, and safe mode is on iff it was already on or the count reached 3 |
| CrashRecovery.ThreeCrashesThenReset | core/src/crash_recovery.rs:344-379 | safe mode is off after one crash and on after three; a reset clears it |
| CrashRecovery.IntegrityCheck | core/src/crash_recovery.rs:248-269 | true iff a database path is set and the file exists and is non-empty; a metadata read failure is an error |
| CrashRecovery.Repair | core/src/crash_recovery.rs:272-290 | succeeds iff a database path is set and the file exists |
| CrashRecovery.CrashRecoveryManager.constructor | core/src/crash_recovery.rs:68-99 | the stored state, or the default; at most three recovery attempts |
| CrashRecovery.CrashRecoveryManager.SetMaxRecoveryAttempts | core/src/crash_recovery.rs:102-104 | sets the limit and nothing else |
| CrashRecovery.CrashRecoveryManager.SetPaths | core/src/crash_recovery.rs:107-112 | records the paths and port, and the getters then return them; saving can fail |
| CrashRecovery.CrashRecoveryManager.UpdatePid | core/src/crash_recovery.rs:115-122 | records the pid and the time |
| CrashRecovery.CrashRecoveryManager.RecordCrash | core/src/crash_recovery.rs:125-142 | the state becomes `Crashed` of the old state |
| CrashRecovery.CrashRecoveryManager.CheckPreviousCrash | core/src/crash_recovery.rs:145-151 | Some iff at least one crash is recorded |
| CrashRecovery.CrashRecoveryManager.RecordRecoveryAttempt | core/src/crash_recovery.rs:184-187 | one more recovery attempt |
| CrashRecovery.CrashRecoveryManager.ResetCrashCount | core/src/crash_recovery.rs:190-195 | the state becomes `Reset` of the old state, and safe mode is off |
| CrashRecovery.CrashRecoveryManager.PerformRecovery | core/src/crash_recovery.rs:154-170 | with no attempts left it fails and changes nothing; otherwise it counts the attempt first, never going past the limit; it succeeds iff the save works and the database is present, whether or not a repair is needed |
| CrashRecovery.CrashRecoveryManager.IsRecoveryNeeded | core/src/crash_recovery.rs:198-205 | a recorded process that is not running |
| CrashRecovery.CrashRecoveryManager.ShouldAttemptRecovery | core/src/crash_recovery.rs:213-215 | attempts < the limit |
| CrashRecovery.CrashRecoveryManager.SaveState | core/src/crash_recovery.rs:293-301 | reports the write's error, if any |
| Backup.BackupFileName | core/src/storage/backup.rs:55-61 | `backup_<ts>.db`, with the db extension |
| Backup.MetaName | core/src/storage/backup.rs:270-279 | the `.meta` name extends the backup's name and never has the db extension |
| Backup.MetaNameInjective | core/src/storage/backup.rs:270-279 | distinct backups have distinct `.meta` files |
| Backup.MetaNameIsNotBackup | core/src/storage/backup.rs:176-199 | a `.meta` name is never a backup's name |
| Backup.TimestampOfName | core/src/storage/backup.rs:287-305 | a recovered timestamp fits in u64 and comes from a `backup_….db` name |
| Backup.BackupFileNameRoundTrip | core/src/storage/backup.rs:287-305 | a backup's name gives back its timestamp |
| Backup.ReadMetadata | core/src/storage/backup.rs:282-325 | with a `.meta`, its decoded contents, or an error if it is not a readable file; without one, the name's timestamp, placeholder fields and the file's size; NotFound when the name carries no timestamp |
| Backup.FallbackKeepsTimestamp | core/src/storage/backup.rs:286-305 | a backup whose `.meta` is missing is still read, with its name's timestamp |
| Backup.SavedMetadataReadsBack | core/src/storage/backup.rs:270-290 | saving then reading metadata gives it back |
| Backup.ReadMetadataFrame | core/src/storage/backup.rs:282-325 | the metadata depends only on the backup and its `.meta` |
| Backup.NamesOf | core/src/storage/backup.rs:172-200 | the names of the listed entries, in order |
| Backup.ListingSize | core/src/storage/backup.rs:172-200 | a listing holds exactly the backups in the directory |
| Backup.ListingsAgree | core/src/storage/backup.rs:172-200 | two listings of one directory hold the same entries |
| Backup.DistinctCard | core/src/storage/backup.rs:172-200 | a sequence without repetitions has as many elements as its length |
| Backup.DistinctPermutation | core/src/storage/backup.rs:196-198 | a permutation of a sequence without repetitions has none |
| Backup.FoundDistinct | core/src/storage/backup.rs:176-194 | a scan lists no entry twice |
| Backup.FoundPermutation | core/src/storage/backup.rs:176-198 | any reordering of a scan is a scan |
| Backup.SortedListing | core/src/storage/backup.rs:176-199 | sorting a scan newest first gives a listing |
| Backup.BackupManager.ListBackups | core/src/storage/backup.rs:172-200 | exactly the `.db` files whose metadata reads, each once with its metadata, newest first, in whatever order the directory is read |
| Backup.AfterDelete | core/src/storage/backup.rs:203-225 | deleting removes the backup file, and its `.meta` file if that is a file; nothing else changes |
| Backup.BackupManager.DeleteBackup | core/src/storage/backup.rs:203-225 | NotFound for a missing backup; otherwise the directory becomes `AfterDelete`, and the call succeeds iff the removals succeed |
| Backup.ListedNamesApart | core/src/storage/backup.rs:228-251 | names of distinct listed backups and their `.meta` files never collide |
| Backup.DeleteStep | core/src/storage/backup.rs:239-247 | deleting one more listed backup extends the deletion |
| Backup.BackupManager.DeleteOldest | core/src/storage/backup.rs:239-247 | deletes exactly the listing's tail from index keep on, with their `.meta` files |
| Backup.RotatedWithinLimit | core/src/storage/backup.rs:239 | within the limit, the directory is left untouched |
| Backup.HeadSurvives | core/src/storage/backup.rs:239-247 | the newest backups survive with their metadata |
| Backup.OnlyHeadListed | core/src/storage/backup.rs:239-247 | after rotation, only the newest backups are listed |
| Backup.BackupsAfterDeletion | core/src/storage/backup.rs:239-247 | after deleting the tail, exactly the head remains |
| Backup.HeadListedAfter | core/src/storage/backup.rs:239-247 | every backup of the listing's head is still listed after the tail is deleted |
| Backup.ListedAfterInHead | core/src/storage/backup.rs:239-247 | every backup listed after the deletion is in the head and keeps its metadata |
| Backup.KeptAreNewer | core/src/storage/backup.rs:239-247 | every kept backup is at least as new as every deleted one |
| Backup.RemovedAreTail | core/src/storage/backup.rs:239-247 | only backups of the tail and their `.meta` files are removed |
| Backup.RotatedByDeletion | core/src/storage/backup.rs:228-251 | deleting the tail is a rotation to keep backups |
| Backup.BackupManager.RotateBackups | core/src/storage/backup.rs:228-251 | `Rotated`: nothing is added or changed; only backups and their `.meta` files are removed; within the limit nothing changes; over it, exactly the limit remains, newest first, each with its metadata |
| Backup.NewestSurvives | core/src/storage/backup.rs:394-413 | a strictly newest backup survives any rotation that keeps at least one |
| Backup.Written | core/src/storage/backup.rs:53-85 | a backup and its `.meta` file are written, and nothing else changes |
| Backup.RotationRemovesOnly | core/src/storage/backup.rs:228-251 | a rotation only removes entries |
| Backup.WrittenIsListed | core/src/storage/backup.rs:53-85 | a freshly written backup is listed, with its metadata |
| Backup.WrittenThenRotated | core/src/storage/backup.rs:53-85 | after writing a backup and then only removing entries, every entry other than the backup and its `.meta` is as before, and the backup, if it remains, holds the written bytes |
| Backup.BackupManager.constructor | core/src/storage/backup.rs:35-45 | keeps at most 10 backups |
| Backup.BackupManager.SetMaxBackups | core/src/storage/backup.rs:48-50 | sets the limit |
| Backup.BackupManager.CreateWith | core/src/storage/backup.rs:53-120 | a missing source is NotFound; success iff the source is a file and neither `backup_<now>.db` nor its `.meta` is a directory; on success they are written, then rotation; on failure the backup directory is unchanged, except that a creatable backup file receives the copy (`CopiedEntry`: the bytes, or an empty file for a directory source) |
| Backup.BackupManager.CreateBackup | core/src/storage/backup.rs:53-85 | as `CreateWith`, for a "manual" backup with the caller's description |
| Backup.BackupManager.CreateAutoBackup | core/src/storage/backup.rs:88-120 | as `CreateWith`, for an "auto" backup described as "Automatic backup" |
| Backup.BackupManager.RestoreBackup | core/src/storage/backup.rs:123-169 | a missing backup is NotFound with nothing changed; files other than the target never change; with an existing target, only `backup_<now>.db` and its `.meta` can be written in the backup directory, every other entry staying or being rotated away, and `backup_<now>.db` holds the target's old contents; success means the target equals the backup afterwards, and, when the pre-restore backup takes another name, the backup's original contents; with no target, the `CopiedEntry` of the backup is put there; if the pre-restore backup reuses the name being restored, the target keeps its old contents |
| Backup.BackupManager.PreRestoreBackup | core/src/storage/backup.rs:132-139 | the pre-restore backup of an existing target leaves the other files alone; only `backup_<now>.db` and its `.meta` can change, and every other entry of the backup directory is as before; `backup_<now>.db`, if present, holds the target's old contents unless it is a directory |
| Backup.BackupManager.RestoreBackupSnapshotFirst | core/src/storage/backup.rs:123-169 | a missing backup is NotFound; success iff the backup is a file and the target is not a directory; on success, the target holds the backup's original contents; files other than the target never change, and in the backup directory only `backup_<now>.db` and its `.meta` can be written |
| Logging.Rank | core/src/logging.rs:10-18 | one of six ranks, in declaration order |
| Logging.LevelsTotallyOrdered | core/src/logging.rs:10-18 | Trace < Debug < Info < Warning < Error < Critical, and the order is total, antisymmetric and transitive |
| Logging.AsStr | core/src/logging.rs:21-30 | a name of at least four upper-case ASCII letters |
| Logging.AsStrInjective | core/src/logging.rs:21-30 | distinct levels have distinct names |
| Logging.FromStr | core/src/logging.rs:32-42 | the level whose name is the upper-cased string; None when no level has it |
| Logging.FromStrAsStr | core/src/logging.rs:21-42 | each level's name parses back to it |
| Logging.FromStrLowerCase | core/src/logging.rs:32-42 | parsing ignores case |
| Logging.FromStrExactly | core/src/logging.rs:32-42 | a string parses to a level iff it is the level's name up to case |
| Logging.ShiftFromStart | core/src/logging.rs:166-183 | before the loop, the archives are unchanged |
| Logging.ShiftStep | core/src/logging.rs:166-183 | each turn renames index p to p + 1, or removes it when p + 1 reaches the limit |
| Logging.ShiftedArchives | core/src/logging.rs:166-183 | after the loop each archive has moved up one index, the slot freed at 1 is empty, and indices outside 1 .. max - 1 are untouched |
| Logging.RotationKeepsIndicesBelowMax | core/src/logging.rs:166-190 | after rotation no index reaches `max_files` |
| Logging.ShiftArchives | core/src/logging.rs:166-178 | the loop from max_files - 1 down to 1 yields exactly `ShiftFrom(archives, max, 1)`: each archive moved up one index, the one reaching max_files removed |
| Logging.Logger.constructor | core/src/logging.rs:110-118 | no file, console level Info, file level Debug, 10 MiB and 5 files |
| Logging.Acquire | core/src/logging.rs:138 | locking succeeds iff the mutex is free, and leaves it held |
| Logging.GuardHeldNeverReturns | core/src/logging.rs:138-154 | holding the guard while calling `log`, which locks again, never returns |
| Logging.GuardDroppedReturns | core/src/logging.rs:138-154 | dropping the guard before calling `log` returns exactly when the mutex starts free, and leaves it free |
| Logging.Logger.Init | core/src/logging.rs:120-156 | with the guard released before logging: the log is opened for appending (empty when new), both levels are set, and the Info entry announcing them reaches the file and the console exactly when Info meets their levels; archives and limits are unchanged |
| Logging.Logger.WriteToLog | core/src/logging.rs:210-224 | the entry goes to the open file iff its level is at least the file level, and to the console iff it is at least the console level |
| Logging.Logger.Log | core/src/logging.rs:227-235 | builds the entry and writes it with those filters: the file becomes the old file plus the line iff one is open and the level reaches the file level, and is otherwise unchanged; the console likewise; the levels, archives and size and file limits are unchanged |
| Logging.Logger.RotateLogs | core/src/logging.rs:158-208 | with the guard released before logging: past the size limit, the archives are shifted, the current log becomes `.1.log` and a fresh empty log is started; otherwise nothing changes; the console, levels and limits never change |

## Left out

- The gRPC transport, the async plumbing and the mock handlers of the service; only the code inside the real handlers is modelled.
- `optimize_memory_bank`: its f32 ratio arithmetic is left out. Its loading step is the shared `LoadMemories`.
- The SQLite repository and its schema. A durable repository is modelled by the in-memory repository's contract, plus a `fault` input that stands for SQL failures.
- The tf-idf content score (`ln`), and the recency decay that reads the clock. The content score is an input (`ContentScore`), and scores are reals, not f64.
- The clock, UUID generation and the process probe. Each is an input.
- Mutex/Arc locking and the global logger, apart from the lock traffic of `init` and `rotate_logs` (`InstallThenLog`). Every component is single-threaded.
- Loading and downloading Hugging Face tokenizers. The loaded model is an input.
- JSON (serde) for the configuration, version files, `recovery.json` and backup `.meta` files. The `.meta` codec is a parameter, and saving state is an effect that may fail.
- Reading the version from the build or from a file.
- `register_shutdown_hook` and `update_state` of the crash-recovery manager.
- `health_service`, `server_manager`, `parent_process_monitor`, `main`, the build scripts, and the detached `*-fix.rs` fragments.
- MemoryService.UmbStoreAll: the contents of each new memory are promised (`UmbResult`) when distinct categories get distinct ids (`IdsApart`), as fresh UUIDs do; with colliding ids the later store replaces the earlier, which `UmbStores` still describes.
- MemoryService.HandleUmb: as for UmbStoreAll, the per-category contents are promised under `IdsApart`; `Memory::new` reads the clock once per store, while the model gives the three stores one clock reading.
- MemoryService.LoadMemories: the order of the loaded memories is that of `get_all_ids`, which is unspecified; the model promises only which memories are loaded.
- Tokens.TokenCount.Add: the usize `+` of `TokenCount::add`, `AddAssign` and `Sum` is unbounded in the model; overflow (a panic or a wrap-around, depending on the build) is not modelled, and SumConcat states the unbounded sum.
- CrashRecovery.Crashed: does not model the u32 wrap-around of `crash_count`; the counters are unbounded.
- MemoryService.GroupByCategory: does not model u32 overflow of the per-category `+=` sums; it sums the u32-cast counts without bound.
- Logging.FromStr: upper-casing is modelled only for the characters whose upper case is an ASCII letter; the rest of Unicode case mapping cannot produce a level name.
- Relevance.BuildDocumentFrequencies: lower-casing of terms is modelled for ASCII letters only; other characters are kept as they are.
- Logging.Logger.RotateLogs: I/O errors from rename and remove are not modelled, nor are the messages rotation logs about itself.
- The text rendering of log timestamps (chrono) is a parameter. `LogEntry::to_json` is left out.
- Backup.ReadMetadata: a backup path that is a directory is taken to have size 0.
- Directory entries follow Linux semantics: opening a directory for reading succeeds and only reading it fails, so `fs::copy` from a directory first creates or truncates the destination.
- Backups are addressed by file name within the backup directory. Paths elsewhere are not modelled, nor is the directory's creation in `BackupManager::new`.
- I/O faults other than missing files and directory-in-the-way are not modelled, and neither are `read_dir` failures.
- Backup.BackupManager.CreateWith: backups created within the same second share a name and overwrite each other. The model states what then happens but does not promise distinct backups. In the rotation test, five backups made within one second may collapse into one.
- The crash-recovery tests call `record_crash` without a reason. The model follows the method's signature.
- The token counts reported in f32 and u32 responses are modelled as reals and as truncating casts.

## Findings

| source | as written | input that shows it | evidently intended | confidence | as-written member | corrected member |
|---|---|---|---|---|---|---|
| core/src/version.rs:37-75 | `Display` prints a version with build metadata but no pre-release tag as `M.m.p+build`, and `parse` only looks for '+' after a '-', so the '+' stays in the patch numeral and parsing fails | `Version { 1, 2, 3, pre_release: None, build: Some("b") }` prints as "1.2.3+b", which parses to None | printed versions parse back; build metadata is split off at '+' even without a pre-release tag | not executed | Versions.BuildWithoutPreReleaseIsUnreadable | Versions.ParseIntendedToString |
| core/src/storage/backup.rs:123-146 | `restore_backup` first makes a pre-restore backup of the target, named `backup_<now>.db`, and only then copies the backup over the target. A restore in the same second as the backup's creation overwrites the backup with the target before copying it | create `backup_T.db` from a file, modify the file, restore `backup_T.db` onto it within second T (as the module test does) | the target ends with the backup's original bytes | not executed | Backup.BackupManager.RestoreBackup | Backup.BackupManager.RestoreBackupSnapshotFirst |
| core/src/logging.rs:138-154 | `init` keeps the guard `logger` of the global `LOGGER` mutex alive while it calls `log`, which locks `LOGGER` again; std's `Mutex` is not re-entrant, so the call never returns. `rotate_logs` (lines 191-204) does the same | any call of `Logger::init` | the guard is dropped before logging, so initialisation returns and its message is logged | not executed | Logging.GuardHeldNeverReturns | Logging.GuardDroppedReturns |
