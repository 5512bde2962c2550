# A model of ikigai-core, in Dafny

This project models eight parts of `ikigai-core` and proves what they are for. The files follow the
source: a class where the source updates an object in place, a loop where it loops, a function where it
only computes. Each method is proved equal to, or bounded by, a specification function or relation, and
the lemmas are about that.

| part | source | files |
|---|---|---|
| the representation cache | `cache.rs` | `Cache`, `CacheSafety`, `CacheContents`, `CacheAccounting`, `CacheLru`, `CacheScan`, `CachePartitioned`, `Sketch`, `CachePolicies` |
| cache configuration | `cache_config.rs` | `CacheConfig` |
| URI templates | `grammar.rs` | `Grammar` |
| names and contract identity | `contract.rs`, `hashing.rs` | `Utf8`, `ContractNames`, `NameDecoding`, `ContractForm`, `ContractFeed`, `ContractIdentity`, `ContractWire` |
| the alias table | `alias.rs` | `AliasRules`, `AliasMeaning`, `AliasTable`, `AliasTwins`, `AliasWalk`, `AliasView`, `AliasForward`, `AliasText`, `AliasReading`, `AliasLine`, `AliasHalfRead`, `AliasRoundTrip` |
| declarations | `declare.rs` | `Declare`, `DeclareCharge`, `DeclarePlaces`, `DeclareClaims`, `DeclareExpand` |
| capabilities | `capability.rs` | `Capability`, `CapabilityShape`, `CapabilityChains` |
| the content store | `content_store.rs` | `ContentStore` |

`Wrappers` and `Sorting` serve several of them. `dafny verify dfyconfig.toml` checks the whole.

**How to read it.** `CacheSafety` is a state machine over whole runs: the world is the cache with the
history of cuts and the snapshots in flight, which no field records, and a cut is two steps, recording and
publishing. The policy is left out of those steps, so what is proved there holds under any policy; the
policy files then instantiate it. `Matcher` in `Grammar` is the memoised backtracking search with its
capture stack and its set of failed places, proved against a search that remembers nothing. `Sink` in
`ContractFeed` is the byte stream a hasher or a buffer is fed, and `ContractIdentity` says what those
bytes mean. `AliasWalk` is about iterating the first matching rule; `Declarations` and `Expansion` hold the
explicit-stack and path-bounded walks to plain recursion.

What a specification function computes is said again without it, so that a change to a method and its
function together is caught: when a cache entry is answered and which answer it is (`CacheContents`), what
each policy evicts (`CachePolicies`), what name a rule gives (`AliasMeaning`) and what a view sends
(`AliasForwards`), which texts decode (`NameDecoding`), what the fed bytes read back as (`ContractWire`),
which tree a graph states (`Expansion.States`) and what body a content id reads (`ContentRuns`).

**Parameters.** Whether a text is an IRI (`valid`), what fills a reference template in (`fill`), what holds a
value to a declared input's contract (`held`), what a rule of a scope grammar covers (`covers`) and the time
(`now`) are parameters of the statements that need them, and hold for every choice.

**Machine words.** `usize` and `u64` byte counts saturate as the source has them (`Words.SatAdd`,
`Words.SatSub`), on a 64-bit host.

## Where the code differs from its documentation

The model follows the code. In each case the exact condition, or a witness, is proved.

- An accepted alias chain has strictly fewer than `max_hops` rewrites: the last turn of the loop finds that
  no rule matches. `alias.rs:811-812` speaks of following up to the budget. (`AliasWalk.AliasedIffEnds`)
- Only the name asked for is held against the reserved namespace; a reserved name met on the way is
  rewritten, although `alias.rs` says the namespace is not aliasable. A table keeps that promise exactly when
  no rule matches the next name of an accepted walk where that name is reserved, and so when no rule applies
  to a reserved name. (`AliasWalk.ReservedNameIsRewrittenOnTheWay`, `AliasWalk.ReservedUnpassedIff`)
- Of two rules with one kind and name, `alias.rs:657-664` says only the first can apply. A later template
  rule can, exactly when its references let a variable of the name be empty that the first one's do not.
  (`AliasTwins.LaterTwinAppliesIff`)
- The line form of an alias table loses a name with `#` and one with any Unicode white space, which an IRI
  may hold (U+00A0, say). A rule with arguments is not always refused: with no verb bound and a first fixed
  name led by `#`, `#x` or U+00A0 and `#x`, it is read as the rule without them, and a line end in one of its
  fixed values starts lines that are read for themselves. (`AliasRoundTrip.RoundTripIff`,
  `AliasHalfRead.HalfReadIff`, `AliasHalfRead.WrittenTableReads`)
- Expanding a match gives the input back exactly when the template repeats no variable name.
  (`Grammar.ReexpandsIffDistinct`)
- `root.clamp(c)` is `c` exactly when `c` carries at most one principal, and a capability carrying several,
  clamped by root, keeps them. (`CapabilityChains.RootClampIff`, `CapabilityChains.RootCarriedKeepsSeveral`)
- The cache's byte total is the sum of its residents in every run exactly when twice the byte bound fits the
  word (under LRU, with room for an entry); the content store's exactly when its bound is below the largest
  word. (`CacheLru.LruAccountsIffCountable`, `ContentRuns.HeldExactIff`)
- The second form's tails name an input and do not repeat it, so the bytes tell which names are read as a
  body or fixed but not of which input. That is all they leave out: what they tell is stated whole, it is the
  contract when input names are distinct and free of NUL, and the first form tells the contract whatever the
  names. (`ContractIdentity.SameBytesIffSameTold`, `ContractIdentity.RepeatedNameCollides`)
- `capability.rs:383-385` says no holder can produce a stronger capability. Of what a scope grammar reads into
  it that holds exactly under the prefixes whose dashed rules are the ones narrowing keeps, which are those of
  two words, `urn:cap:fs:read:` say: a rule under one word that is a word, a colon and a dash must be left
  alone, as `capability.rs:144-150` asks. (`CapabilityChains.AgreesIff`, `CapabilityChains.AgreesIffTwoWords`)

## Model

| member | source | states |
|---|---|---|
| Cache.ReprCache.RecordCut | crates/ikigai-core/src/cache.rs:1843-1854 | A cut raises the thread's generation by one and appends to the log, which forgets its oldest cut when it is full and moves the horizon up to it |
| Cache.ReprCache.CutThread | crates/ikigai-core/src/cache.rs:1594-1599 | A cut records under the lock and then publishes the new sequence number |
| Cache.ReprCache.EnforceBound | crates/ikigai-core/src/cache.rs:1775-1805 | The eviction loop ends, and ends where repeatedly removing the policy's choice among the residents ends: not over the bound, or with the policy naming nobody |
| Cache.ReprCache.SweepGenerations | crates/ikigai-core/src/cache.rs:1947-1963 | Past the watermark, exactly the generations some entry or failure pins are kept |
| Cache.ReprCache.StoreOutcome | crates/ikigai-core/src/cache.rs:1405-1491 | A store is declined as raced, refused or lost a contest, or files the entry at the generations of now, evicts until within bounds and sweeps |
| Cache.ReprCache.StoreFailure | crates/ikigai-core/src/cache.rs:1499-1540 | A failure is stored only uncut since its snapshot, making room by the soonest to lapse |
| Cache.ReprCache.ServeOrOffer | crates/ikigai-core/src/cache.rs:1318-1352 | A lookup answers a live entry the face accepts and counts the hit, offers an expired one that has a validator, and removes one that is cut or spent: `CacheContents.ServedIff` says exactly when |
| Cache.ReprCache.Lookup | crates/ikigai-core/src/cache.rs:1227-1274 | A caller is looked up under its upstream: `CacheContents.LookupIff` says exactly when it is answered and with what |
| Cache.ReprCache.Discard | crates/ikigai-core/src/cache.rs:1280-1295 | A discard removes the entry only if it is still the one the offer was made of |
| Cache.ReprCache.GetFailure | crates/ikigai-core/src/cache.rs:1551-1571 | A failure is answered only live and to the same provenance, and a dead one is removed |
| CacheEntries.Enumerate | crates/ikigai-core/src/cache.rs:1775-1805 | Listing the residents gives each once, in some order nothing else depends on |
| CacheSafety.CutSinceIsExact | crates/ikigai-core/src/cache.rs:1921-1935 | The bounded log says a thread was cut since a snapshot exactly when the whole history does or the snapshot is older than the horizon (and some thread is asked about) |
| CacheSafety.CutAfterIsHistory | crates/ikigai-core/src/cache.rs:1921-1935 | A tail of the history answers for every snapshot it reaches back to |
| CacheSafety.CurrentIffUncut | crates/ikigai-core/src/cache.rs:1888-1900 | An entry's pins are all current exactly when none of its threads was cut since the snapshot it was stored under |
| CacheSafety.SweepKeepsPins | crates/ikigai-core/src/cache.rs:1947-1963 | The sweep changes the generation of no pinned thread, so no pin reads as current again |
| CacheSafety.RunsKeep | crates/ikigai-core/src/cache.rs:1843-1963 | In every interleaving of snapshots, two-phase cuts, stores, failure stores, lookups and discards, under any policy, the log is the tail of the history, every snapshot is in the past, and every pin is short by exactly the cuts since it was filed |
| CacheSafety.NextKeeps | crates/ikigai-core/src/cache.rs:1405-1963 | Each single step of that machine keeps all of it |
| CacheSafety.LiveEntriesAreUncut | crates/ikigai-core/src/cache.rs:1888-1900 | In every run an entry is judged cut exactly when some thread of it was cut since the snapshot it was stored under |
| CacheSafety.LiveFailuresAreUncut | crates/ikigai-core/src/cache.rs:1904-1917 | The same, both ways, for a stored failure |
| CacheSafety.NothingCutIsServed | crates/ikigai-core/src/cache.rs:1318-1352 | Whatever a lookup answers or offers, in any run, had none of its threads cut since the snapshot it was stored under |
| CacheSafety.NothingCutIsServedAsFailure | crates/ikigai-core/src/cache.rs:1551-1571 | Whatever failure a lookup answers, likewise, and it has not lapsed |
| CacheSafety.CutIsForever | crates/ikigai-core/src/cache.rs:1947-1963 | An entry once judged cut is judged cut for as long as it is resident, whatever steps follow |
| CacheSafety.ListenersHearEachCutOnce | crates/ikigai-core/src/cache.rs:1843-1872 | A cut names an entry as invalidated by it exactly when no earlier cut of that thread had made it stale |
| CacheSafety.RaceCheckIsExact | crates/ikigai-core/src/cache.rs:1921-1935 | A store is declined as raced exactly when a thread of it was cut since its snapshot, or its snapshot is older than the log reaches back |
| CacheSafety.StoresIsAStep | crates/ikigai-core/src/cache.rs:1405-1491 | A store under any one policy is a step of that machine, so the safety holds under it |
| CacheContents.RunsBooked | crates/ikigai-core/src/cache.rs:1405-1571 | In every run each resident is the last answer stored under its key, unchanged, pinned to its threads and counted as often as it was answered; each failure is the last one under its key; and every accepted store is resident, evicted or replaced |
| CacheContents.ServedIff | crates/ikigai-core/src/cache.rs:1318-1352 | In every run an entry is answered exactly when no thread of it was cut since its snapshot, its deadline is ahead and the face takes it; it is offered exactly when it is uncut, past its deadline, has a validator and the offer takes it; it leaves exactly when it is cut, or past its deadline without one |
| CacheContents.LookupIff | crates/ikigai-core/src/cache.rs:1227-1274 | In every run a caller is answered exactly while the last answer stored under the key is resident, uncut, ahead of its deadline and of the same upstream, and gets that answer; and is offered one likewise, past its deadline |
| CacheContents.ServingTouchesOne | crates/ikigai-core/src/cache.rs:1318-1352 | A lookup touches nothing under another key, and of the entry only its count and when it was last used |
| CacheContents.FailureIff | crates/ikigai-core/src/cache.rs:1551-1571 | In every run a failure is answered exactly while it is uncut since its snapshot, not lapsed and of the same upstream, and it leaves exactly when it is cut or lapsed |
| CacheContents.AnswerEndsFailure | crates/ikigai-core/src/cache.rs:1471-1491 | An answer stored under a key ends the failure under it, and no other |
| CacheContents.RoomIsMade | crates/ikigai-core/src/cache.rs:1514-1524 | A failure makes room by at most one other, which lapses no later than any, and there are never too many |
| CacheContents.DiscardIff | crates/ikigai-core/src/cache.rs:1280-1295 | In every run a discard removes exactly the entry the offer was made of, and never one stored under the key since |
| CacheContents.FactsAreTrue | crates/ikigai-core/src/cache.rs:312-324 | In every run what a policy is told of a resident is true of the answer stored: whose, what, how large, what it cost, how often it was answered, how many threads, and when it was stored |
| CacheContents.CandidateFactsAreTrue | crates/ikigai-core/src/cache.rs:1405-1470 | A newcomer is weighed by the facts its entry would have |
| CacheContents.BodySizeIs | crates/ikigai-core/src/cache.rs:295-301 | A body counts its length where it is known and a word holds it, and the largest word where it is not |
| CacheContents.ContestedIff | crates/ikigai-core/src/cache.rs:1405-1470 | The policy is asked to weigh a newcomer exactly when filing it would pass the bound, or when it keeps a bound for each partition |
| CacheContents.SweepForgets | crates/ikigai-core/src/cache.rs:1947-1963 | A sweep forgets exactly the generations nothing pins, once there are more than twice the entries, and never with fewer than 1024 |
| CacheContents.EnforcedSettles | crates/ikigai-core/src/cache.rs:1775-1805 | The eviction loop ends only within the bound or where the policy names nobody |
| CacheContents.WithinStays | crates/ikigai-core/src/cache.rs:1775-1805 | It takes nothing from a cache within its bound |
| CacheAccounting.FiledAccount | crates/ikigai-core/src/cache.rs:1471-1489 | Filing keeps the byte total the sum of the resident sizes exactly when the sum fits the word |
| CacheAccounting.StoreKeepsAccount | crates/ikigai-core/src/cache.rs:1405-1491 | A store keeps the byte total exact under any policy admitting nothing over the bound, when twice the bound fits the word |
| CacheAccounting.ServeKeepsAccount | crates/ikigai-core/src/cache.rs:1318-1352 | A lookup that drops an entry keeps the byte total exact |
| CacheAccounting.SegmentListed | crates/ikigai-core/src/cache.rs:718-730 | Bytes and counts summed over a listing are those of the residents the rule keeps, whatever the order of the listing |
| CacheLru.TrimIsLongestFit | crates/ikigai-core/src/cache.rs:557-569 | Dropping the oldest until it fits leaves the longest most recently used run within both bounds |
| CacheLru.HoldsOnce | crates/ikigai-core/src/cache.rs:1072-1081 | Ticks are unique, so a state stands for one recency list, whatever order its map lists it in |
| CacheLru.LruStores | crates/ikigai-core/src/cache.rs:1405-1491 | A store under LRU moves the key to the recent end of the list and keeps the longest run that fits, with the byte total exact |
| CacheLru.LruDeclines | crates/ikigai-core/src/cache.rs:1405-1491 | Under LRU a store is declined exactly for a cut in flight, a one-shot body or a size over the whole bound |
| CacheLru.LruServes | crates/ikigai-core/src/cache.rs:1318-1352 | A lookup under LRU moves a live key to the recent end and removes a dead one |
| CacheLru.StepRefines | crates/ikigai-core/src/cache.rs:1280-1491 | Each step of the cache under LRU is the list's own step |
| CacheLru.LruRunsRefine | crates/ikigai-core/src/cache.rs:1775-1805 | In every run the residents are the list's, sizes and order, within both bounds |
| CacheLru.LruAccountsIffCountable | crates/ikigai-core/src/cache.rs:1471-1489 | The byte total is the sum of the resident sizes in every run exactly when twice the byte bound fits the machine word |
| CachePolicies.LeastIs | crates/ikigai-core/src/cache.rs:1072-1081 | What is chosen among the residents is kept by the rule and has none before it |
| CachePolicies.CostAwareChooses | crates/ikigai-core/src/cache.rs:621-637 | With no cost known the cost-aware policy evicts what was used longest ago, and otherwise what earns least for the bytes it holds, then what was used longest ago |
| CachePolicies.DensityIs | crates/ikigai-core/src/cache.rs:629-635 | What an entry earns is its cost times its wants, in 1024ths, for each byte held, rounded down |
| Sketches.Sketch.Increment | crates/ikigai-core/src/cache.rs:880-892 | One counter a row is raised, saturating, and every counter is halved at the end of a sample |
| Sketches.EstimateNeverUnder | crates/ikigai-core/src/cache.rs:872-878 | An estimate is never under the number of uses since the last halving, saturated and aged as the counters are |
| Sketches.EstimateExactWithPrivateRow | crates/ikigai-core/src/cache.rs:872-878 | It is exact when in some row nothing else shares the request's counter |
| CachePolicies.AgedIsCount | crates/ikigai-core/src/cache.rs:880-892 | Within a sample a private count is how often the request was wanted, up to fifteen, and half of that when the sample ends |
| CachePolicies.WidthIs | crates/ikigai-core/src/cache.rs:846-857 | A row is the next power of two of four counters to an entry, from 64 to 2 to the 22nd, and a sample ten requests to an entry, 64 at least |
| CacheScan.UnderTransitive | crates/ikigai-core/src/cache.rs:810-826 | Comparing hit rates by cross-multiplying is transitive, so the least is well defined |
| CacheScan.LeastProtected | crates/ikigai-core/src/cache.rs:748-785 | The protected entry that gives way is one no other protected entry gives way before: the lowest hit rate, then the longest unused |
| CacheScan.ScanChoosesProbationary | crates/ikigai-core/src/cache.rs:748-785 | Over its bound and with the protected entries within their share, the cache evicts a probationary entry |
| CacheScan.ScanEnforces | crates/ikigai-core/src/cache.rs:1775-1805 | Evicting under the scan-resistant policy from within its share takes only probationary entries |
| CacheScan.ScanStores | crates/ikigai-core/src/cache.rs:733-798 | A store under a key no protected entry holds leaves the protected entries as they were, admitted or not |
| CacheScan.ScansLeaveProtected | crates/ikigai-core/src/cache.rs:718-798 | However long the scan and whatever the sketch counts, the protected entries stay exactly as they were |
| CachePolicies.ScanChooses | crates/ikigai-core/src/cache.rs:748-785 | The victim is the longest unused probationary entry while the protected are within their share and there is one, and otherwise the protected one served least for its age |
| CachePolicies.ProtectedOverIff | crates/ikigai-core/src/cache.rs:718-731 | The protected entries are over their share exactly when their number or their bytes pass the percentage of the bound, whatever order they are listed in |
| CachePolicies.ScanContestIff | crates/ikigai-core/src/cache.rs:787-798 | A newcomer wins unless it would take the place of a probationary entry wanted at least as often |
| CachePolicies.ScanAdmits | crates/ikigai-core/src/cache.rs:1405-1491 | A store of a newcomer that does not fit beside the residents is accepted only if it was wanted oftener than the probationary entry that gives way, and declined only if not |
| CachePartitioned.PartitionIsLongest | crates/ikigai-core/src/cache.rs:948-955 | A name belongs to the partition with the longest prefix it starts with, and to the rest exactly when it starts with none |
| CachePartitioned.FurthestIsMost | crates/ikigai-core/src/cache.rs:1011-1025 | The partition that gives up an entry is the furthest over its bound, bytes first, and the first of equals |
| CachePartitioned.PartitionedChooses | crates/ikigai-core/src/cache.rs:1011-1025 | The entry chosen is one of that partition, by its own policy among its own |
| CachePartitioned.AllWithinNotOver | crates/ikigai-core/src/cache.rs:994-1004 | With every partition within its bound the cache is within the sum of them |
| CachePartitioned.PartitionedEnforces | crates/ikigai-core/src/cache.rs:1775-1805 | Eviction ends with every partition within its own bound, when each inner policy names a victim of any residents |
| CachePartitioned.PartitionedStores | crates/ikigai-core/src/cache.rs:1405-1491 | A store from a state within bounds ends within them, and evicts only entries of the stored entry's own partition |
| CachePartitioned.ServingKeepsParts | crates/ikigai-core/src/cache.rs:1318-1352 | A lookup leaves every partition within its bound |
| CachePolicies.PartitionVictimIs | crates/ikigai-core/src/cache.rs:1011-1025 | The entry evicted is the one the overfull partition's own policy chooses among that partition's residents |
| CachePolicies.PartitionContestIff | crates/ikigai-core/src/cache.rs:1027-1039 | A partition takes a newcomer without a contest exactly when it stays within its bound with it |
| CachePolicies.PartitionedAdmits | crates/ikigai-core/src/cache.rs:1006-1009 | A newcomer is admitted by the policy of the partition it belongs to |
| CacheConfigs.BuildPartition | crates/ikigai-core/src/cache_config.rs:113-159 | A partition is accepted exactly when it is valid, and is then the one described; a refusal is one the partition deserves |
| CacheConfigs.ToPolicy | crates/ikigai-core/src/cache_config.rs:168-246 | A config is accepted exactly when its whole and its partitions are valid and the partitions' budgets leave some of the whole; a refusal is one the config deserves |
| CacheConfigs.AcceptableIff | crates/ikigai-core/src/cache_config.rs:113-246 | A config is accepted exactly when it deserves none of the refusals: a size that is nothing or no word, a policy of no known name, a share out of range or of another policy, a prefix empty or given twice, nothing left for the rest |
| CachePolicies.NamedPolicyIff | crates/ikigai-core/src/cache_config.rs:122-159 | Each name builds its own policy over the bound given, the scan-resistant one with the share given or 80 |
| CachePolicies.ConfiguredChooses | crates/ikigai-core/src/cache_config.rs:168-246 | An accepted config without partitions evicts by the order its policy name says and admits what fits the whole bound |
| CachePolicies.PartitionConfigured | crates/ikigai-core/src/cache_config.rs:168-246 | Under one with partitions each partition has the policy its own name, or the table's, says, over its own bound |
| CacheConfigs.PartitionEntriesAre | crates/ikigai-core/src/cache_config.rs:203-210 | A partition that states no entry count has the share of the whole's its bytes are, one at the least |
| CacheConfigs.AcceptedConservesTotal | crates/ikigai-core/src/cache_config.rs:168-246 | The policy of an accepted config has exactly the configured capacity: no saturating subtraction lost anything |
| CacheConfigs.BuiltNamesVictims | crates/ikigai-core/src/cache_config.rs:122-159 | Every policy a config can build names a victim of any residents |
| CacheConfigs.StoreHolds | crates/ikigai-core/src/cache.rs:1775-1805 | A store under a config's policy ends with at most the configured entries and bytes |
| CacheConfigs.AcceptedRunsHold | crates/ikigai-core/src/cache_config.rs:168-246 | In every run of stores, lookups, cuts, discards and failures under an accepted config with a countable total, the byte total is exact, the whole is within the configured entries and bytes and every partition within its own |
| CacheConfigs.AcceptedAssembles | crates/ikigai-core/src/cache_config.rs:232-246 | Adding an accepted config's partitions one at a time drops none of them |
| Grammar.ParseTemplate | crates/ikigai-core/src/grammar.rs:123-157 | The cursor loop parses as the scan of the text's runs and variables, with the same refusals |
| Grammar.ParseIsInverse | crates/ikigai-core/src/grammar.rs:123-157 | A text parses to some parts exactly when they are a well-formed template and its text, so each refusal is of a text no template has |
| Grammar.ExpandTemplate | crates/ikigai-core/src/grammar.rs:176-185 | The buffer loop gives the expansion |
| Grammar.ExpandsWhenBound | crates/ikigai-core/src/grammar.rs:176-185 | Expansion succeeds exactly when every variable is bound |
| Grammar.SearchIsLeftmost | crates/ikigai-core/src/grammar.rs:244-300 | The plain search finds a split exactly when one exists, and the lexicographically least |
| Grammar.Matcher.MatchFrom | crates/ikigai-core/src/grammar.rs:244-300 | The memoised search succeeds exactly when the plain one does, adds its spans to the captures, restores the captures on failure, and remembers only places no split exists from |
| Grammar.Matcher.MatchVar | crates/ikigai-core/src/grammar.rs:262-296 | Trying only the next literal's occurrences, leftmost first, misses no split |
| Grammar.MatchWithEmpty | crates/ikigai-core/src/grammar.rs:219-234 | The match binds each variable to its leftmost span, a repeated name to the last |
| Grammar.MatchesItsExpansions | crates/ikigai-core/src/grammar.rs:100-112 | A template matches everything it expands to with non-empty values, repeated names or not |
| Grammar.MatchesExactlyItsExpansions | crates/ikigai-core/src/grammar.rs:100-112 | With distinct names it matches exactly that |
| Grammar.ReexpandsMatch | crates/ikigai-core/src/grammar.rs:219-300 | With distinct names, expanding what was matched gives the input back |
| Grammar.ReexpandsIffDistinct | crates/ikigai-core/src/grammar.rs:219-300 | It does so for every input exactly when no name is repeated |
| Grammar.RepeatedNameLosesText | crates/ikigai-core/src/grammar.rs:219-234 | For every template that repeats a name there is an input it matches and does not expand back to |
| Grammar.NameCharsAre | crates/ikigai-core/src/grammar.rs:137-137 | A variable's name is made of letters, digits and the underscore |
| Names.EncodeNameLoop | crates/ikigai-core/src/contract.rs:273-292 | The encoding loop percent-encodes exactly the characters a name may not carry |
| Names.DecodeSegmentLoop | crates/ikigai-core/src/contract.rs:299-317 | The decoding loop decodes as `DecodeSegment`, of which `NameDecoding.DecodeSegmentIff` says what it reads and what it refuses |
| Names.DecodeInvertsEncode | crates/ikigai-core/src/contract.rs:273-317 | Decoding an encoded name gives the name back, for every text |
| Names.EncodeNameInjective | crates/ikigai-core/src/contract.rs:215-292 | Distinct names are encoded distinctly |
| Names.EncodedIsSafe | crates/ikigai-core/src/contract.rs:204-223 | An encoded name holds no character that must be encoded, other than the percent sign |
| NameDecoding.HexValueIff | crates/ikigai-core/src/contract.rs:299-317 | A byte is a digit exactly when it is one of the sixteen in either case: no sign, no blank |
| NameDecoding.DecodeSegmentIff | crates/ikigai-core/src/contract.rs:294-317 | A segment decodes to a text exactly when it is cut into plain characters and escapes of two digits whose bytes are the text's |
| NameDecoding.BrokenEscapeRefused | crates/ikigai-core/src/contract.rs:294-317 | A percent sign without two digits after it is refused, wherever it stands |
| NameDecoding.SignedEscapeRefused | crates/ikigai-core/src/contract.rs:355-374 | So is the escape with a sign the source tells of, under every verb |
| NameDecoding.EncodedIffNotPath | crates/ikigai-core/src/contract.rs:204-223 | A character is encoded exactly when a path of an IRI may not hold it as it is |
| NameDecoding.UcscharIff | crates/ikigai-core/src/iri.rs:148-161 | A character past ASCII is refused exactly when it is outside the ranges of `ucschar` in section 2.2 of RFC 3987 |
| NameDecoding.EncodedIsPath | crates/ikigai-core/src/contract.rs:273-292 | An encoded name is path characters and percent signs, whatever the name holds |
| Utf8.DecodeIffEncode | crates/ikigai-core/src/contract.rs:299-317 | Strict decoding gives a text exactly for that text's bytes |
| ContractIris.MatchIriParsesBack | crates/ikigai-core/src/contract.rs:339-352 | A match IRI parses back to the verb and pattern that made it |
| NameDecoding.ParseMatchIriIff | crates/ikigai-core/src/contract.rs:339-352 | A text is a match IRI of a verb and a pattern exactly when it is the prefix, the verb's word, a colon and a segment that decodes to the pattern |
| NameDecoding.MatchIriWords | crates/ikigai-core/src/contract.rs:193-195 | Each verb is written as its own word |
| NameDecoding.ParseVerbIff | crates/ikigai-core/src/contract.rs:197-202 | A word names a verb exactly when it is the one it is written as |
| ContractIris.CanonicalMatchIriIsNormal | crates/ikigai-core/src/contract.rs:372-374 | Canonicalizing is idempotent, keeps what is meant, and equates two spellings exactly when they parse alike |
| ContractIris.DigestParsesBack | crates/ikigai-core/src/content.rs:32-41 | A digest's text parses back to the digest |
| NameDecoding.DecodeHexIff | crates/ikigai-core/src/content.rs:128-140 | A text is read as bytes exactly when it is two digits, in either case, for each byte |
| NameDecoding.ParseDigestIff | crates/ikigai-core/src/content.rs:32-41 | A text is a digest exactly when it is its label and two digits for each byte |
| ContractIris.ContractIriParsesBack | crates/ikigai-core/src/contract.rs:398-424 | A contract IRI parses back to what made it, even when the id holds colons |
| NameDecoding.ParseContractIriIff | crates/ikigai-core/src/contract.rs:418-424 | A text is a contract IRI exactly when it is the prefix, a segment that decodes to the id, the verb's word and a digest's text, whatever colons the segment holds |
| ContractIris.CanonicalContractIriIsNormal | crates/ikigai-core/src/contract.rs:393-395 | Canonicalizing is idempotent, keeps what is meant, and equates two spellings exactly when they parse alike |
| Framing.StrCancels | crates/ikigai-core/src/hashing.rs:9-20 | A framed text can be read off the front of a stream in one way |
| Framing.SetCancels | crates/ikigai-core/src/contract.rs:95-103 | So can a framed set, as a set |
| Framing.SetIsOrderFree | crates/ikigai-core/src/contract.rs:95-103 | A set is framed alike whatever order and repetition it is given in |
| Sorting.SortDedupIsSet | crates/ikigai-core/src/contract.rs:95-103 | Sorted and deduplicated, two lists are equal exactly when they hold the same elements |
| ContractFeed.Sink.FeedSet | crates/ikigai-core/src/contract.rs:460-468 | Feeding a set appends its count and its members in order, each framed |
| ContractFeed.Sink.FeedTails | crates/ikigai-core/src/contract.rs:629-677 | Each optional tail is appended under its own byte, and only when there is something to say |
| ContractFeed.InputV2 | crates/ikigai-core/src/contract.rs:137-164 | One input whole, every field of it |
| ContractFeed.ContractId | crates/ikigai-core/src/contract.rs:577-679 | The bytes fed for an action, in the form its content chooses |
| ContractWire.ContractReadsBack | crates/ikigai-core/src/contract.rs:577-679 | What is fed for any action is read back, to its end, as the action's own fields in the order laid down, sets as sets, under the form its content chooses |
| ContractWire.ItemReads | crates/ikigai-core/src/contract.rs:137-164 | An input's encoding is read back as every field of it under its own name |
| ContractWire.GroupReads | crates/ikigai-core/src/contract.rs:184-191 | A group's encoding is read back as its kind, its members and its pipe |
| ContractIdentity.CanonicalDetermined | crates/ikigai-core/src/contract.rs:428-448 | In the first form two inputs are equal after canonicalizing exactly when they are the same input |
| ContractIdentity.InputCancels | crates/ikigai-core/src/contract.rs:137-164 | An input's encoding in the second form says the whole input, apart from what the tails carry |
| ContractIdentity.TailsCancel | crates/ikigai-core/src/contract.rs:629-677 | No optional tail can be taken for another |
| ContractIdentity.FormDetermined | crates/ikigai-core/src/contract.rs:119-134 | Which form is used is settled by what the bytes tell |
| ContractIdentity.SameBytesIffSameTold | crates/ikigai-core/src/contract.rs:577-679 | Whatever the names, two endpoints and actions feed the same bytes exactly when they are the same up to order and repetition, and up to which input of a name is read as a body or fixed |
| ContractIdentity.SameBytesIffSameContract | crates/ikigai-core/src/contract.rs:577-679 | With distinct NUL-free input names, two endpoints and actions feed the same bytes exactly when they are the same up to order and repetition of set-valued fields, across both forms and all tails |
| ContractIdentity.FirstFormIffSameContract | crates/ikigai-core/src/contract.rs:577-627 | So do any two of which one is of the first form, whatever their names |
| ContractIdentity.ContractFeedsOneStream | crates/ikigai-core/src/contract.rs:470-490 | Order and repetition never move the identity, whatever the names |
| ContractIdentity.RepeatedNameCollides | crates/ikigai-core/src/contract.rs:650-677 | Two different inputs of one name can trade their body between them without moving the bytes of the second form |
| AliasRules.RequestPartOf | crates/ikigai-core/src/alias.rs:1711-1868 | A stated rule is refused exactly when it cannot mean one thing, with a refusal it deserves, and otherwise has its templates and its names in order |
| AliasRules.AcceptableIff | crates/ikigai-core/src/alias.rs:1711-1868 | A named request is accepted exactly when it deserves none of the refusals, each said of the rule's own texts |
| AliasMeaning.PatternIff | crates/ikigai-core/src/alias.rs:1711-1760 | A text is read as a template exactly when it is a well-formed one's text |
| AliasRules.AcceptedIsSound | crates/ikigai-core/src/alias.rs:1711-1868 | What passes uses only captured variables, in its canonical name and in what it fixes |
| AliasRules.MatchedRuleRewrites | crates/ikigai-core/src/alias.rs:486-518 | A rule that passed rewrites every name its logical name matches, with every capture it fixes bound; `AliasMeaning.ApplyIff` says to what |
| AliasMeaning.ApplyIff | crates/ikigai-core/src/alias.rs:486-518 | A rule gives a name and captures exactly when: an exact rule, its own name and its target; a prefix rule, its target and what follows the prefix; a template rule, of an IRI, its target with what the leftmost split captures laid out in it |
| AliasMeaning.StatedRewritesIff | crates/ikigai-core/src/alias.rs:486-518 | The same over the rule as it was stated, in its own texts, for every accepted one |
| AliasMeaning.CapturesAre | crates/ikigai-core/src/alias.rs:486-508 | A template captures by the leftmost split without an empty variable, and only when there is none by the leftmost with the variables of the rule's references empty |
| AliasMeaning.MatchIff | crates/ikigai-core/src/grammar.rs:219-300 | A template matches with some bindings exactly when its leftmost split binds each variable, and nothing else, to its last span |
| AliasMeaning.ExpandIs | crates/ikigai-core/src/grammar.rs:176-185 | A template expands to a text exactly when every variable is bound and the text is its parts in order, each variable's value in its place |
| AliasMeaning.PartIsStated | crates/ikigai-core/src/alias.rs:1711-1868 | The arguments and inputs of a built rule are those stated, in the order of their names |
| AliasRules.CapturesRebuildName | crates/ikigai-core/src/alias.rs:486-518 | What a template rule captured, filled into its logical name, is the name it matched |
| AliasOrder.OutranksIsOrder | crates/ikigai-core/src/alias.rs:794-809 | The sort puts the longest name first, then exact, prefix, template, then by name |
| AliasOrder.RankIsKeywordOrder | crates/ikigai-core/src/alias.rs:794-809 | The three kinds stand in the order of their keywords |
| AliasOrder.OrderIndependent | crates/ikigai-core/src/alias.rs:794-809 | Rules pairwise distinct in match kind and name end in one order, whatever order they came in |
| AliasTables.AddedInAnyOrder | crates/ikigai-core/src/alias.rs:657-664 | So two tables such rules were added to one at a time, in any two orders, hold the same rules in the same order |
| Sorting.SortedAlikeIff | crates/ikigai-core/src/alias.rs:794-809 | Two insertion orders give one table exactly when rules of one kind and name come in the same order in both |
| Sorting.StableSortKeepsOrder | crates/ikigai-core/src/alias.rs:794-809 | Rules of one kind and name keep the order they were added in |
| AliasTables.AliasTable.Insert | crates/ikigai-core/src/alias.rs:794-809 | An insertion re-sorts, leaving the old rules in place and the new one behind its equals |
| AliasTables.AliasTable.WithRule | crates/ikigai-core/src/alias.rs:746-758 | A refused rule leaves the table as it was, and every rule of a table built of accepted ones has passed the check |
| AliasTables.AliasTable.Walk | crates/ikigai-core/src/alias.rs:862-912 | The loop answers as the walk by recursion |
| AliasTables.StepIsMostSpecific | crates/ikigai-core/src/alias.rs:915-920 | The rule that applies is the first that matches, and no matching rule outranks it |
| AliasTwins.TwinNeverApplies | crates/ikigai-core/src/alias.rs:657-664 | A rule behind one of the same kind and name never applies, anywhere in a table, unless it lets a variable of the name be empty that the first does not |
| AliasTwins.LaterTwinApplies | crates/ikigai-core/src/alias.rs:486-508 | If it does, it applies to the name with nothing in that variable and a character of no literal in every other |
| AliasTwins.LaterTwinAppliesIff | crates/ikigai-core/src/alias.rs:657-664 | Of two rules of one kind and name, the later can apply exactly when it lets a variable of the name be empty that the first does not |
| AliasTwins.AcceptedTwinsIff | crates/ikigai-core/src/alias.rs:1711-1868 | For two accepted rules that is exactly when the variables of its references are not all among the first one's |
| AliasTwins.CapturesIff | crates/ikigai-core/src/alias.rs:486-508 | Trying without empty variables first, and with them only when there are any, matches exactly the names trying with them would |
| AliasWalk.AliasedIffEnds | crates/ikigai-core/src/alias.rs:862-912 | A non-reserved name is rewritten to a name exactly when taking the first matching rule ends there after n rewrites, 1 <= n < max_hops, every name on the way an IRI |
| AliasWalk.DirectIffUnmatched | crates/ikigai-core/src/alias.rs:862-889 | A name is left alone exactly when it is reserved or no rule matches it |
| AliasWalk.ChainAgrees | crates/ikigai-core/src/alias.rs:862-912 | Every name on an accepted chain is sent to the same place by the rest of the same rules |
| AliasWalk.CanonicalIsFinal | crates/ikigai-core/src/alias.rs:862-912 | A canonical name canonicalizes to itself, and an accepted trail never repeats a name |
| AliasWalk.RefusedDeserves | crates/ikigai-core/src/alias.rs:891-911 | A refusal is for a name that is not an IRI, a name met again, or a chain longer than the hops |
| AliasWalk.RefusedCycleNeverEnds | crates/ikigai-core/src/alias.rs:896-899 | A chain refused for a cycle would have gone on for ever |
| AliasWalk.ReservedNameIsRewrittenOnTheWay | crates/ikigai-core/src/alias.rs:862-866 | A reserved name met on the way is rewritten like any other, though asked for itself it is left alone |
| AliasWalk.ReservedNameTable | crates/ikigai-core/src/alias.rs:862-912 | There are tables that do so |
| AliasWalk.ReservedUnpassedIff | crates/ikigai-core/src/alias.rs:178-184 | A table rewrites no reserved name on any accepted walk exactly when no rule matches the next name of an accepted walk where that name is reserved |
| AliasWalk.ReservedUnmatchedUnpassed | crates/ikigai-core/src/alias.rs:178-184 | A table no rule of which applies to a reserved name rewrites none |
| AliasTables.ReservedIff | crates/ikigai-core/src/kernel.rs:6656-6660 | A name is reserved exactly when it starts with the eleven characters of the kernel's namespace, in either case |
| AliasViews.Replay | crates/ikigai-core/src/alias.rs:1435-1515 | The replay loop settles each named request of the chain as by recursion |
| AliasViews.ReplayedReplays | crates/ikigai-core/src/alias.rs:1435-1515 | A view goes to the canonical name, and its parts are the named requests of the chain, each fixed argument as it is sent |
| AliasViews.WalkedHopReplays | crates/ikigai-core/src/alias.rs:1371-1376 | A hop the table's own walk took always replays, over rules that passed the check |
| AliasViews.CapturesAreSent | crates/ikigai-core/src/alias.rs:1495-1498 | A fixed capture is sent as the text the template captured of the name |
| AliasViews.Forwarded | crates/ikigai-core/src/alias.rs:1554-1597 | The forwarding loop merges part after part, with the same refusals |
| AliasViews.ForwardedKeepsAndFixes | crates/ikigai-core/src/alias.rs:1554-1597 | A forwarded request keeps every argument the caller gave and sends every fixed one, none of which the caller gave, under the verb bound or Exists |
| AliasViews.GivenFixedArgumentRefused | crates/ikigai-core/src/alias.rs:1574-1580 | A caller who gives a fixed argument is refused |
| AliasForwards.ForwardsIff | crates/ikigai-core/src/alias.rs:1554-1597 | A view forwards a request exactly when the verb is every one bound or Exists, every fixed argument could be made and is given by nobody before, every declared input that has a value by then meets its contract, and what is sent is what the caller gave with what the first to give each other argument does |
| AliasForwards.FixesAreSent | crates/ikigai-core/src/alias.rs:1435-1515 | A written value is sent as it stands, a reference as a reference, one with variables filled in, and a capture as the text captured |
| AliasForwards.NamedIffStated | crates/ikigai-core/src/alias.rs:440-444 | A built rule is a named request exactly when it was stated as one |
| AliasTexts.ParseTable | crates/ikigai-core/src/alias.rs:1016-1109 | Reading a text line by line gives the table, or the first line that is not one |
| AliasTexts.ToText | crates/ikigai-core/src/alias.rs:1116-1145 | The lines written, in table order |
| AliasTexts.HopsReadBack | crates/ikigai-core/src/alias.rs:1026-1032 | A hop count is read back from its decimal |
| AliasReadings.ParseLineIff | crates/ikigai-core/src/alias.rs:1023-1109 | Words are read as a rule exactly when they are its keyword, its two names and where it resolves, and the reader accepts it |
| AliasReadings.ParseHopsLineIff | crates/ikigai-core/src/alias.rs:1025-1036 | And as a hop count exactly when they are the keyword and one |
| AliasReadings.ParseHopsIff | crates/ikigai-core/src/alias.rs:1026-1032 | A hop count is digits, with or without a plus, whose value fits the word |
| AliasReadings.LineEnds | crates/ikigai-core/src/alias.rs:1016-1020 | A line ends at a line feed, with or without a carriage return before it |
| AliasReadings.WhiteAre | crates/ikigai-core/src/alias.rs:1020-1024 | White space is the twenty-five characters of the Unicode property |
| AliasRoundTrip.RoundTripIff | crates/ikigai-core/src/alias.rs:1111-1145 | A table read back from its text is the same exactly when every rule has a line: no arguments, names free of # and of whitespace, and accepted when read |
| AliasRoundTrip.ReadTableRoundTrips | crates/ikigai-core/src/alias.rs:1016-1145 | Whatever was read can be written and read again |
| AliasHalfRead.HalfReadIff | crates/ikigai-core/src/alias.rs:1023-1052 | A rule with arguments is written as a line that reads as a rule exactly when it binds no verb and its first fixed name has a # with only white space before it, and what is read is the rule without its arguments, template or plain; any other is refused, and for its arguments exactly when no # comes before their first equals sign |
| AliasHalfRead.AcceptedIsWritten | crates/ikigai-core/src/alias.rs:1711-1868 | That holds of every accepted rule whose two names a line can hold |
| AliasHalfRead.HashNamesPass | crates/ikigai-core/src/alias.rs:1773-1781 | The check lets a fixed name through that starts with #, or with a no-break space and # |
| AliasHalfRead.ReadLinesIs | crates/ikigai-core/src/alias.rs:1016-1109 | Lines are read exactly when each can be, and the table is then the rules they state, sorted, with the last hop count they give |
| AliasHalfRead.WrittenTableReads | crates/ikigai-core/src/alias.rs:1111-1145 | A written table with such rules is read exactly when each rule with arguments loses them and every further line of its values can be read, as the rules without arguments and whatever rules and hops those lines state |
| AliasHalfRead.HalfReadTable | crates/ikigai-core/src/alias.rs:1111-1145 | Without line ends in its texts it comes back, if at all, as the same table without arguments |
| Declarations.Budget.Charge | crates/ikigai-core/src/declare.rs:143-197 | A node is charged itself, its doors and its rules with their arguments and inputs, and the text they carry, never what it encloses |
| Charges.OwnTextIsBytes | crates/ikigai-core/src/declare.rs:143-197 | A node is charged the UTF-8 length of all the texts it states, one after the other |
| Charges.OwnNodesAreMarks | crates/ikigai-core/src/declare.rs:143-197 | And one for itself, each door, each rule, each argument a rule fixes and each input it declares |
| Declarations.Measure | crates/ikigai-core/src/declare.rs:214-252 | The explicit stack visits and names the nodes as the recursive visit does |
| Declarations.MeasureIsBounded | crates/ikigai-core/src/declare.rs:214-252 | The measure accepts exactly the trees whose depth, expanded nodes and expanded text, by recursion, are within the bounds, and a refusal names a bound that is passed |
| Places.MeasureStops | crates/ikigai-core/src/declare.rs:205-252 | A tree is refused exactly at the first place, in rendering order, that lies too deep or up to which there are too many nodes or too much text, under the bound passed there and by the name it is rendered under: that of what it lies under that is met again, its own, or the number of its cell |
| Claims.CheckClaims | crates/ikigai-core/src/declare.rs:264-283 | The walk that never goes into a name met again accepts exactly the trees in which any two nodes of one name, anywhere, are equal, and names one that is claimed twice |
| Expansion.UnfoldsOnce | crates/ikigai-core/src/declare.rs:1440-1480 | A graph states at most one tree under a name |
| Expansion.CycleUnfoldsNever | crates/ikigai-core/src/declare.rs:1440-1443 | A node that encloses itself at any distance states no tree |
| Expansion.CycleBelowUnfoldsNever | crates/ikigai-core/src/declare.rs:1440-1443 | A root with a cycle anywhere below it states no tree |
| Expansion.Assembled | crates/ikigai-core/src/declare.rs:1462-1480 | A node with its children and corridors put in encloses exactly those, and is charged what it stated alone |
| Expansion.AssembledIff | crates/ikigai-core/src/declare.rs:1462-1480 | Some parts are put into a node exactly when taking the children and every corridor out again leaves what it states, and there is a corridor exactly at the doors it names one for |
| Expansion.UnfoldsIffStates | crates/ikigai-core/src/declare.rs:1440-1480 | The tree a graph unfolds to is the one it states: at every node of it the kind, the doors, the rules and the text are the node's own, and a child and a corridor for each it names |
| Expansion.Expander.Node | crates/ikigai-core/src/declare.rs:1440-1458 | A node is expanded exactly when it states a tree with room for it, the path and the budget left as they should be |
| Expansion.Expand | crates/ikigai-core/src/declare.rs:1440-1480 | A root is expanded exactly when the graph states a tree within the bounds, to that tree, which the measure accepts; a refusal for a cycle is of a graph that states none, and a cycle anywhere below the root is refused |
| CapabilityShapes.IsDenyIff | crates/ikigai-core/src/capability.rs:179-204 | A scope is an exclusion exactly when it is the prefix, a word, and a rule led by a dash with nothing or one word before it |
| CapabilityShapes.WordIff | crates/ikigai-core/src/capability.rs:198-204 | A word is a lower-case letter or a digit, then those, underscores and hyphens |
| CapabilityShapes.PrincipalIff | crates/ikigai-core/src/capability.rs:305-325 | A principal is an IRI of at most 512 bytes without a star that starts neither with a dash nor with a word, a colon and a dash |
| CapabilityShapes.PrincipalRefused | crates/ikigai-core/src/capability.rs:305-325 | Each refusal is true of the text offered |
| Capabilities.AttenuateKeeps | crates/ikigai-core/src/capability.rs:387-415 | Attenuating leaves the grants both name, every exclusion of either, and the holder's one principal when asked for |
| Capabilities.ClampKeeps | crates/ikigai-core/src/capability.rs:433-448 | Clamping leaves the same and the ceiling's own principal whatever was carried |
| Capabilities.ClampAssociative | crates/ikigai-core/src/capability.rs:433-448 | Clamping is associative, root and ambiguous capabilities included |
| Capabilities.ClampAllowsBoth | crates/ikigai-core/src/capability.rs:433-448 | A clamp allows an ordinary scope exactly when both sides do, and a principal as the ceiling does (the carried one under root) |
| CapabilityChains.ChainLeaves | crates/ikigai-core/src/capability.rs:387-448 | A chain of narrowings leaves exactly the grants every step names, every exclusion met on the way, and the one principal unless an attenuation leaves it out |
| CapabilityChains.OrderIsNothing | crates/ikigai-core/src/capability.rs:387-448 | The order and repetition of the steps change nothing |
| CapabilityChains.ChainNarrows | crates/ikigai-core/src/capability.rs:387-448 | Grants shrink, exclusions grow, the principal is the original or none, and nothing is allowed that was not |
| CapabilityChains.NarrowedIsUnambiguous | crates/ikigai-core/src/capability.rs:343-348 | No narrowing by named scopes leaves several principals |
| CapabilityChains.NarrowedReachesNothingNew | crates/ikigai-core/src/capability.rs:909-960 | When the longest rule wins and an exclusion breaks a tie, a narrowed capability reaches no target the original could not, whatever rules cover |
| CapabilityChains.TwoWordsAgree | crates/ikigai-core/src/capability.rs:179-204 | A grammar of two words and a rule excludes exactly the scopes narrowing treats as exclusions |
| CapabilityChains.AgreesIffTwoWords | crates/ikigai-core/src/capability.rs:179-204 | No other prefix agrees with narrowing on every rule |
| CapabilityChains.OneWordDisagrees | crates/ikigai-core/src/capability.rs:179-204 | A grammar of one word does not: a rule that is a word, a colon and a dash is an exclusion only to narrowing |
| CapabilityChains.DisagreementReaches | crates/ikigai-core/src/capability.rs:909-960 | Under such a rule an attenuation of nothing reaches what the rule covers |
| CapabilityChains.AgreesIff | crates/ikigai-core/src/capability.rs:909-960 | Exactly under the prefixes that agree with narrowing does no narrowing, of any scopes and whatever the rules cover, reach anything new |
| CapabilityChains.MintNames | crates/ikigai-core/src/capability.rs:496-512 | A mint names exactly the principal offered and keeps every other scope; it is refused exactly for root and for what cannot be a principal |
| CapabilityChains.DoorKeepsItsName | crates/ikigai-core/src/capability.rs:433-448 | No carried capability sheds or changes the name a door minted |
| CapabilityChains.RootClampIff | crates/ikigai-core/src/capability.rs:417-448 | Under root a clamp gives the carried capability back exactly when it carries at most one principal |
| CapabilityChains.RootCarriedKeepsSeveral | crates/ikigai-core/src/capability.rs:433-448 | A capability with several principals clamped by root keeps them |
| CapabilityChains.PresenceGrowsIff | crates/ikigai-core/src/select.rs:811-819 | A chain of narrowings newly meets the family form of a declared scope exactly when nothing held is under the family and some step asks for an exclusion that is |
| CapabilityChains.PresenceCanGrow | crates/ikigai-core/src/select.rs:811-819 | One dashed rule under any two words does so |
| ContentStores.MemoryContentStore.Hold | crates/ikigai-core/src/content_store.rs:263-298 | A put adds a handle to what is held, or takes the content in when its size fits the bound; `ContentRuns.ReadsWhatWasPut` says what is read of it |
| ContentStores.MemoryContentStore.PutReplay | crates/ikigai-core/src/content_store.rs:243-261 | A replay with no validator or no length is refused, and otherwise held under its validator |
| ContentStores.MemoryContentStore.CloneHandle | crates/ikigai-core/src/content_store.rs:364-376 | A clone is one more handle of the same holder |
| ContentStores.MemoryContentStore.DropHandle | crates/ikigai-core/src/content_store.rs:380-402 | A drop is one handle fewer, and the last of an entry releases it and its bytes |
| ContentRuns.RunsKeep | crates/ikigai-core/src/content_store.rs:263-402 | In every run each holder's count is its live handles, no entry is without one, and the bytes held never pass the bound |
| ContentRuns.ResidentIffHandled | crates/ikigai-core/src/content_store.rs:346-347 | Content is resident exactly while some handle for it lives |
| ContentRuns.ReadsIffHandled | crates/ikigai-core/src/content_store.rs:327-333 | A capability that is not root reads an id exactly when a handle taken for its principal lives |
| ContentRuns.DelivererReads | crates/ikigai-core/src/content_store.rs:175-215 | A deliverer reads its content back exactly when it is root or names a principal |
| ContentRuns.ReadsWhatWasPut | crates/ikigai-core/src/content_store.rs:285-333 | In every run a read that answers gives the body of the put that took the id in, whoever put it again since and whatever was cloned and dropped |
| ContentRuns.FreshPutReadsBack | crates/ikigai-core/src/content_store.rs:285-333 | A put of an id nothing is held under is read back as it was offered |
| ContentRuns.ReadStays | crates/ikigai-core/src/content_store.rs:263-402 | A step that leaves an id resident leaves what is read under it |
| ContentRuns.TakenStays | crates/ikigai-core/src/content_store.rs:263-402 | And leaves what was offered for it what it was |
| ContentRuns.PutTakenIff | crates/ikigai-core/src/content_store.rs:263-298 | In every run below the largest word a put is taken exactly when some handle for its id lives or its size fits beside what is resident, and a refused one changes nothing |
| ContentRuns.ReplayIsPut | crates/ikigai-core/src/content_store.rs:243-261 | A replay with a validator and a length is a put under its validator, and any other changes nothing |
| ContentRuns.HeldExactIff | crates/ikigai-core/src/content_store.rs:263-298 | The bytes held are what is resident, within the bound, in every run exactly when the bound is below the largest word |

## Left out

- CacheSafety.RunsKeep: a policy that keeps state of its own between questions is any policy here, so nothing is said of what such a policy remembers; the sketch is modelled apart from the run it counts.
- CacheScan.ScansLeaveProtected: the sketch a store is weighed with is any sketch at each step, not the one its own run produced, which is the stronger statement; the hashing that picks a row's cell is a parameter.
- CacheLru.LruRunsRefine: ticks, hit counts, generations and cut numbers are unbounded, where the source has `u64` counters that would wrap after more steps than a run can take.
- ContractIdentity.SameBytesIffSameContract: lengths are assumed to fit the 64-bit prefix they are written in, as anything held in memory does; SameBytesIffSameTold says what the bytes tell when names are not distinct.
- ContractFeed.ContractId: the BLAKE3 digest taken of the bytes is not part of this model, nor is any statement about collisions of it.
- AliasTables.AliasTable.Walk: the per-rule counters, and the preview that leaves them alone, are not modelled.
- AliasViews.Replay: what a view's description forwards (its first logical name, its declared captures and inputs for a reader) is not modelled.
- AliasViews.Forwarded: whether a value meets a declared input's contract, and what fills a reference template in, are parameters; the argument of an invocation is its text or a reference.
- AliasRules.RequestPartOf: which of several refusals a rule deserves is given first is not stated; likewise of CacheConfigs.ToPolicy.
- Claims.CheckClaims: a name that is also a cell the rendering mints is not modelled.
- Expansion.Expander.Node: reading the triples of one node, and the check that every triple was read, are not modelled; a graph is what each node states of itself.
- Declarations.Measure: the sums over one node's own strings are unbounded before they are added, saturating, to the running totals.
- CapabilityChains.NarrowedReachesNothingNew: what a rule covers is a parameter, and the reading of scopes as rules is the modules' own.
- ContentStores.MemoryContentStore.DropHandle: a handle that outlives its store, and counts of handles past the word, are not modelled; a body is a text.
- Grammar.MatchWithEmpty: positions count characters where the source counts bytes, which is the same search over valid text.
- The text and Turtle faces of the cache, the alias table and capabilities, and error messages.
- Streams: a body in the cache is a size and whether it can be read again.
- `Iri::parse`, percent-encoded expansion, `topology.rs`, `space.rs`, `kernel.rs` (other than the reserved prefix), `select.rs` (other than the presence test) and the resolution path.
- The builders and field checks of `describe.rs`, settled by reading one branch.
