# ExpressGateway: verified models of its load-balancing, codec and concurrency core

Dafny 4.11 models of the parts of ExpressGateway whose correctness cannot be read off one
function: the balancers, the HTTP/1.1 chunked and HTTP/2 codecs, the HPACK compression state, the
L4 tables and checksum, and four concurrent protocols. `dafny verify dfyconfig.toml` checks
everything.

How the source is rendered:

- Objects with mutable fields (`DynamicTable`, the HPACK and chunked encoders and decoders,
  `WeightedRoundRobin`, `ConntrackTable`, `HotSwapManager`) are classes. Every method is proved
  equal to a function on the object's abstract value, and the properties are proved of those
  functions over whole runs.
- Loops are methods with loops, proved against functions or against the promised property.
- The token bucket, the TCP pool, the drain coordinator and the idle/head deadline are state
  machines whose steps are single atomic operations, lock boundaries or clock ticks. A run is any
  sequence of steps of any number of callers, so a statement about runs holds in every
  interleaving.
- Hash functions are parameters: nothing is assumed of them but that they are functions. Clock
  readings, measured durations, spurious compare-exchange failures and the outcome of outside work
  are chosen freely by the events of a run.
- An octet is an integer from 0 to 255 and bit operations are written as arithmetic. Word widths
  are explicit where the code can leave them.

Files, in reading order:

| files | part |
|---|---|
| `Basics`, `NumberTheory`, `PrimeCertificates`, `Utf8` | sums, sequences, Euclid's lemma, proofs that large numbers are prime, UTF-8 validity |
| `Balancing` | hash functions and errors the balancers share |
| `Primality`, `MaglevTable`, `MaglevBalancer` | the prime gate, table population, the L7 and L4 tables |
| `SmoothWrr`, `RingHash` | smooth weighted round robin, ring hashing |
| `HpackTable`, `HpackInt`, `Hpack`, `HpackCodec`, `HpackStatic` | HPACK |
| `ChunkedText`, `Chunked`, `ChunkedRoundTrip`, `ChunkedTrailers`, `ChunkedCodec` | chunked transfer coding |
| `Framing`, `H2Frame` | HTTP/2 frames and frame streams |
| `Checksum`, `Conntrack`, `HotSwap` | L4 checksum update, flow tracking, backend swaps |
| `TokenBucket`, `TcpPool`, `DrainLatch`, `IdleSend` | concurrent and timed protocols |

## What turned out not to hold as stated

- `is_prime` answers only while `i * i` stays in a 64-bit word: it leaves it exactly on the primes
  from (2^32 - 5)^2 on (`Primality.IsPrimeWord`), and there are some (`Primality.OverflowIsReached`).
- Table population computes `offset + c * skip` in a word. It is safe for all hashes if and only if
  the size is at most 2^32 (`MaglevTable.PopulationSafeIff`), and a size past the gate that fails
  exists (`MaglevBalancer.PopulationOverflowIsReached`).
- The HPACK table is not always the longest fitting prefix of everything inserted: it holds the
  entries that fitted all along (`HpackTable.ReplayKeepsFitted`), so it is that prefix if and only
  if every entry that fits now has fitted all along (`HpackTable.ReplayIsFitIff`). A limit that
  shrinks and grows again can break it (`HpackTable.GrowthForgets`).
- The decoder's table is not kept within the limit set from outside, since size updates in the
  input are applied whatever they say: `Hpack.DecodeWithinIff` is the exact condition,
  `Hpack.RaisingBlockExceeds` a block that breaks it.
- An incrementally updated checksum equals the recomputed one if and only if the final buffer is
  not all zero, for every buffer of up to 131074 octets and for no greater length
  (`Checksum.AgreesUpTo131074`); beyond that the 32-bit sum can wrap, and `Checksum.ChainEqualsFull`
  is the exact condition for every buffer. An update is undone by its inverse if and only if the
  checksum is not 0xFFFF (`Checksum.UpdateReversible`).
- A gate that has earned a token does not always admit: the cast to 64 bits can drop 2^64 tokens
  (`TokenBucket.TruncationDenies`). `TokenBucket.SoloAdmission` is the admission law with the exact
  condition under which it holds.
- `total_max` of the TCP pool is exceeded by concurrent releasers: at most by k - 1 with k of them
  (`TcpPool.TotalBound`), and that much is reached (`TcpPool.OvershootIsReached`).
- Not every `run_drain` caller returns: one that is still alive can return if and only if no winner
  was dropped at an await or panicked before completing (`DrainLatch.ReturnsIffNotAbandoned`);
  `DrainLatch.SettlingWinnerCanBeDropped` is a run in which one was.
- The comment on the identity hash (`crates/lb-balancer/src/lib.rs:155-157`) promises equal hashes
  if and only if the lists are equal. No 64-bit hash keeps it (`Balancing.IdentityCollides`), and a
  table then serves a stale list (`MaglevBalancer.StaleListAccepted`). When a lookup is accepted is
  exactly `MaglevBalancer.LookupOutcome`.

## Model

| member | source | states |
|---|---|---|
| Primality.SixStep | crates/lb-l4-xdp/src/lib.rs:224-230 | Testing i and i + 2 rules out all six candidates of a round. |
| Primality.SquareFits | crates/lb-l4-xdp/src/lib.rs:225-225 | The square of a candidate leaves a 64-bit word for the first time at 2^32 + 1. |
| Primality.TrialRound | crates/lb-l4-xdp/src/lib.rs:225-230 | One loop turn decides primality, overflows, or rules out six more divisors. |
| Primality.IsPrimeWord | crates/lb-l4-xdp/src/lib.rs:214-232 | Composite words are refused, primes below (2^32 - 5)^2 accepted, and exactly the primes from there on make the loop leave 64-bit words. |
| Primality.OverflowIsReached | crates/lb-l4-xdp/src/lib.rs:225-225 | 2^64 - 2^32 + 1 is such a prime. |
| MaglevTable.ProbesDistinct | crates/lb-balancer/src/maglev.rs:51-61 | On a prime table, distinct probe counts of a backend hit distinct slots. |
| MaglevTable.ProbesCover | crates/lb-balancer/src/maglev.rs:105-109 | p probes visit every slot, so the unbounded probe loop meets every free slot. |
| MaglevTable.ProbeFitsWord | crates/lb-l4-xdp/src/lib.rs:343-349 | No probe computation leaves 64 bits for table sizes up to 2^32. |
| MaglevTable.ProbesFitIff | crates/lb-l4-xdp/src/lib.rs:343-349 | 2^32 is the exact threshold over all offsets, skips and probe counts. |
| MaglevTable.GreedyUnique | crates/lb-balancer/src/maglev.rs:93-124 | The reference process (first free slot, counted from the start, in turns) describes exactly one table. |
| MaglevTable.GreedyBalance | crates/lb-balancer/src/maglev.rs:93-124 | After k turns backend i owns exactly k/n slots, plus one if and only if i < k mod n, whatever the hashes. |
| MaglevTable.GreedyOccupancy | crates/lb-balancer/src/maglev.rs:111-122 | k turns fill exactly k slots, all with backend indices. |
| MaglevTable.Probe | crates/lb-balancer/src/maglev.rs:100-109 | Probing from the cursor stops below p at the same slot as probing from the start, or leaves 64-bit words exactly when that slot's probe does. |
| MaglevTable.Place | crates/lb-balancer/src/maglev.rs:100-118 | One turn of the loop is one turn of the reference process, or shows that it leaves words. |
| MaglevTable.Populate | crates/lb-balancer/src/maglev.rs:81-127 | Population terminates; it fails exactly when some turn needs a probe outside a 64-bit word, and otherwise yields the reference table: every entry a backend index, every share exact. |
| MaglevTable.GreedyExists | crates/lb-balancer/src/maglev.rs:93-124 | On a prime table the reference process never gets stuck. |
| MaglevTable.SmallTablesSafe | crates/lb-balancer/src/maglev.rs:93-124 | Up to a table size of 2^32 no turn leaves words, whatever the hashes. |
| MaglevTable.PopulationSafeIff | crates/lb-l4-xdp/src/lib.rs:321-366 | A prime size is safe for all offsets and skips if and only if it is at most 2^32. |
| MaglevTable.SlotRecurrence | crates/lb-balancer/src/maglev.rs:105-108 | A backend's probes start at its offset and go on by its skip, around the table. |
| MaglevTable.FirstSlot | crates/lb-balancer/src/maglev.rs:93-117 | From its first turn on the first backend holds the slot of its offset. |
| MaglevTable.FreeOffsetTaken | crates/lb-balancer/src/maglev.rs:100-114 | A backend whose offset is still free takes it. |
| MaglevTable.LoneTurns | crates/lb-balancer/src/maglev.rs:100-117 | A backend alone takes one probe further at every turn. |
| MaglevBalancer.Permutation | crates/lb-balancer/src/maglev.rs:51-61 | Offset below p and skip between 1 and p - 1, for any hash. |
| MaglevBalancer.FirstBackendSlot | crates/lb-balancer/src/maglev.rs:51-61 | The first backend owns the slot its own name hashes to. |
| MaglevBalancer.FirstRoundSlot | crates/lb-balancer/src/maglev.rs:51-61 | In the first round a backend takes the slot its own name hashes to, if that is free. |
| MaglevBalancer.LoneBackendSkips | crates/lb-balancer/src/maglev.rs:51-61 | From there a lone backend goes on by the skip its name hashes to under the second seed. |
| MaglevBalancer.TableSizeIsPrime | crates/lb-balancer/src/maglev.rs:13-13 | 65537 is prime. |
| MaglevBalancer.NewMaglev | crates/lb-balancer/src/maglev.rs:36-47 | Construction fails exactly for no backends and otherwise yields the exactly balanced reference table with count and identity hash. |
| MaglevBalancer.LookupOutcome | crates/lb-balancer/src/maglev.rs:132-157 | A lookup never fails internally, always succeeds for the backends the table was built for, succeeds for others exactly when count and identity hash agree, and otherwise gives each error under its condition. |
| MaglevBalancer.PickFollowsKey | crates/lb-balancer/src/maglev.rs:143-156 | A key below the table size is answered by its slot, and keys a table size apart alike. |
| MaglevBalancer.PicksBalance | crates/lb-balancer/src/maglev.rs:132-157 | Of any 65537 consecutive keys exactly its share is answered with a backend. |
| Balancing.IdentityCollides | crates/lb-balancer/src/lib.rs:153-182 | Every 64-bit identity hash gives two different one-backend lists the same value. |
| MaglevBalancer.StaleListAccepted | crates/lb-balancer/src/lib.rs:153-182 | So for every hash some table built for one list serves every key of another. |
| MaglevBalancer.ConsecutiveKeysBalance | crates/lb-balancer/src/maglev.rs:143-148 | The slots of any p consecutive keys hold every backend by its exact share, wherever they start. |
| MaglevBalancer.NewL4Table | crates/lb-l4-xdp/src/lib.rs:251-264 | Each error exactly under its condition: no backends, a size that is not prime, or leaving 64-bit words in the size gate or a probe; otherwise the exactly balanced reference table. |
| MaglevBalancer.SmallSizesStay | crates/lb-l4-xdp/src/lib.rs:251-264 | No prime size up to 2^32 leaves words, so there exactly the primes are accepted. |
| MaglevBalancer.PopulationOverflowIsReached | crates/lb-l4-xdp/src/lib.rs:343-349 | A prime size above 2^32 that passes the gate, with a hash for which population leaves words. |
| MaglevBalancer.L4Lookup | crates/lb-l4-xdp/src/lib.rs:272-281 | A lookup in a constructed table succeeds with an index below the backend count. |
| MaglevBalancer.L4FollowsKey | crates/lb-l4-xdp/src/lib.rs:272-281 | A key below the table size is answered by its slot, and keys a table size apart alike. |
| MaglevBalancer.L4Balance | crates/lb-l4-xdp/src/lib.rs:272-281 | Of any p consecutive keys exactly its share is answered with a backend. |
| SmoothWrr.AdvanceBalanced | crates/lb-balancer/src/weighted_round_robin.rs:67-85 | One pick keeps the weights summing to zero and strictly above minus the bound. |
| SmoothWrr.RunBalanced | crates/lb-balancer/src/weighted_round_robin.rs:33-88 | Over every run of picks, with errors, id resets and weight changes, current weights sum to zero and stay above minus the largest total seen. |
| SmoothWrr.LedgerProduct | crates/lb-balancer/src/weighted_round_robin.rs:67-85 | After m picks the current weight of a backend is m times its weight less its picks times the total. |
| SmoothWrr.PeriodFairness | crates/lb-balancer/src/weighted_round_robin.rs:55-88 | Over k full periods of W picks each backend is picked exactly k times its weight and all weights are back to zero. |
| SmoothWrr.PrefixFairness | crates/lb-balancer/src/weighted_round_robin.rs:55-88 | At every prefix a backend is less than one turn ahead and less than n - 1 turns behind its exact share; a single backend is picked every time. |
| SmoothWrr.NewIsFresh | crates/lb-balancer/src/weighted_round_robin.rs:24-29 | A new balancer starts a period for any backend list. |
| SmoothWrr.ChangedIdsStartAfresh | crates/lb-balancer/src/weighted_round_robin.rs:33-45 | After any change of ids or their order a pick is that of a new balancer. |
| SmoothWrr.SameIdsGoOn | crates/lb-balancer/src/weighted_round_robin.rs:33-88 | With the same ids it goes on from the current weights, whatever the list's weights now are: the first maximum of the boosted weights is picked and charged the total. |
| SmoothWrr.FreshIff | crates/lb-balancer/src/weighted_round_robin.rs:33-45 | A period starts exactly for other ids or all-zero weights. |
| SmoothWrr.PickErrors | crates/lb-balancer/src/weighted_round_robin.rs:55-65 | The two errors exactly under their conditions, and the state each leaves. |
| SmoothWrr.SmallRunsFit | crates/lb-balancer/src/weighted_round_robin.rs:55-88 | Over every run of lists of at most 46340 backends no pick leaves a signed 64-bit word. |
| SmoothWrr.WeightedRoundRobin.constructor | crates/lb-balancer/src/weighted_round_robin.rs:24-29 | Empty state. |
| SmoothWrr.WeightedRoundRobin.SyncWeights | crates/lb-balancer/src/weighted_round_robin.rs:33-45 | Any change of ids or order resets; a change of weights alone keeps the state. |
| SmoothWrr.WeightedRoundRobin.AddWeights | crates/lb-balancer/src/weighted_round_robin.rs:68-80 | Weights are added in place and the first maximum is found, unless, exactly, a sum leaves the word. |
| SmoothWrr.WeightedRoundRobin.Pick | crates/lb-balancer/src/weighted_round_robin.rs:55-88 | For every backend list, the in-place pick is the specified transition with both error cases and keeps the invariant; there is no answer exactly when a value leaves the word. |
| SmoothWrr.SumWeights | crates/lb-balancer/src/weighted_round_robin.rs:62-62 | The total weight, or exactly that it leaves the word. |
| RingHash.SortedIsSorted | crates/lb-balancer/src/ring_hash.rs:50-50 | Sorting orders the points by hash and keeps their multiset. |
| RingHash.NewRing | crates/lb-balancer/src/ring_hash.rs:33-57 | The ring is the sorted multiset of the 150 virtual nodes of every backend; it fails exactly for no backends. |
| RingHash.RingSize | crates/lb-balancer/src/ring_hash.rs:38-48 | Every backend has 150 points on the ring. |
| RingHash.RingMembers | crates/lb-balancer/src/ring_hash.rs:40-48 | The points of a ring are exactly the virtual nodes of its backends. |
| RingHash.BinarySearch | crates/lb-balancer/src/ring_hash.rs:106-107 | An index with the hash, or the insertion point. |
| RingHash.PickedOutcome | crates/lb-balancer/src/ring_hash.rs:91-130 | On a constructed ring the three internal-error branches never fire, the other errors occur exactly under their conditions, and a picked backend is in range and owns a clockwise-nearest point. |
| RingHash.PickWithKey | crates/lb-balancer/src/ring_hash.rs:91-130 | The same of the search and lookup together, for every key. |
| RingHash.SearchIsNearest | crates/lb-balancer/src/ring_hash.rs:106-116 | The searched position with wrap-around is at the least clockwise distance. |
| RingHash.ScanIsNearest | crates/lb-balancer/src/ring_hash.rs:106-116 | So is the position a linear clockwise scan finds. |
| RingHash.NearestHash | crates/lb-balancer/src/ring_hash.rs:106-116 | Nearest points share one hash, whatever collisions there are. |
| RingHash.SearchAgreesWithScan | crates/lb-balancer/src/ring_hash.rs:106-116 | With distinct hashes the binary search and the linear scan agree. |
| RingHash.RemovalMovesOnlyItsKeys | crates/lb-balancer/src/ring_hash.rs:33-130 | Removing a backend changes the chosen backend id only for keys that were on it, unless virtual nodes of different backends collide. |
| RingHash.RemovalKeepsPicks | crates/lb-balancer/src/ring_hash.rs:91-130 | The same of two picks: both succeed and name the same backend unless the first was the removed one. |
| RingHash.PickAcrossRemoval | crates/lb-balancer/src/ring_hash.rs:33-130 | The same of the whole code: build, pick, remove, build, pick. |
| HpackTable.FitIsLongest | crates/lb-h2/src/hpack.rs:179-187 | The retained entries are a newest-first prefix that fits and cannot be extended. |
| HpackTable.FitUnique | crates/lb-h2/src/hpack.rs:179-187 | There is only one such prefix. |
| HpackTable.LoneInsert | crates/lb-h2/src/hpack.rs:166-177 | One insertion into an empty table is kept exactly when name, value and 32 octets fit the limit. |
| HpackTable.ReplayBounded | crates/lb-h2/src/hpack.rs:170-202 | Over any run the table stays within the limit then in force. |
| HpackTable.ReplayKeepsFitted | crates/lb-h2/src/hpack.rs:156-203 | After every run, growing limits included, the table is exactly the newest-first history prefix of the entries that, with everything newer, fitted the limit in force at every moment since their insertion. |
| HpackTable.ReplayIsFitIff | crates/lb-h2/src/hpack.rs:156-203 | A run ends with the longest fitting prefix of its history if and only if every entry that fits now has fitted all along. |
| HpackTable.ReplayIsHistoryPrefix | crates/lb-h2/src/hpack.rs:156-203 | In particular it does while the limit never grows, oversized inserts included. |
| HpackTable.ReplayWithinIff | crates/lb-h2/src/hpack.rs:156-203 | A run leaves the table within some other limit if and only if every entry that fitted all along fits that limit. |
| HpackTable.ResizeKeepsPrefix | crates/lb-h2/src/hpack.rs:199-202 | The same for one change of limit, in terms of the newest evicted entry. |
| HpackTable.GrowthForgets | crates/lb-h2/src/hpack.rs:199-202 | A run with a growing limit for which it fails. |
| HpackTable.DynamicTable.constructor | crates/lb-h2/src/hpack.rs:157-163 | An empty table with its limit. |
| HpackTable.DynamicTable.Evict | crates/lb-h2/src/hpack.rs:179-187 | Eviction leaves the longest prefix that makes room; `size` stays the sum of entry sizes. |
| HpackTable.DynamicTable.Insert | crates/lb-h2/src/hpack.rs:170-177 | Insertion as section 4.4 of RFC 7541 has it, oversized entries emptying the table. |
| HpackTable.DynamicTable.SetMaxSize | crates/lb-h2/src/hpack.rs:199-202 | A new limit evicts what no longer fits. |
| HpackInt.SeptetsRoundTrip | crates/lb-h2/src/hpack.rs:271-307 | Continuation octets decode to their value exactly when the octets still allowed can carry it. |
| HpackInt.IntRoundTrip | crates/lb-h2/src/hpack.rs:263-308 | An encoded integer decodes to itself with its exact length if and only if it is below prefix maximum + 2^35; otherwise the decoder reports an error. |
| HpackInt.PrefixWidth | crates/lb-h2/src/hpack.rs:265-287 | A prefix of n bits is the octet modulo 2^n. |
| HpackInt.IntExamples | crates/lb-h2/src/hpack.rs:263-280 | The examples of appendix C.1 of RFC 7541. |
| HpackInt.IntTruncated | crates/lb-h2/src/hpack.rs:284-297 | A strict prefix of an encoded integer is incomplete, never another integer. |
| HpackInt.StringRoundTrip | crates/lb-h2/src/hpack.rs:311-326 | Octets decode to themselves if and only if they are UTF-8 and their length fits; otherwise the decoder reports an error. |
| HpackInt.StringTruncated | crates/lb-h2/src/hpack.rs:317-321 | A strict prefix of an encoded string is incomplete. |
| HpackInt.HuffmanBitIgnored | crates/lb-h2/src/hpack.rs:316-318 | The Huffman bit does not change what a string decodes to. |
| HpackInt.WriteInt | crates/lb-h2/src/hpack.rs:263-280 | The output loop produces the specified octets. |
| HpackInt.ReadInt | crates/lb-h2/src/hpack.rs:284-308 | The input loop with its five-octet limit computes the specified result, errors included. |
| HpackInt.ReadSeptets | crates/lb-h2/src/hpack.rs:293-307 | Adding each octet at seven more bits of shift is the specified number. |
| Hpack.ExtendBest | crates/lb-h2/src/hpack.rs:230-255 | One more entry keeps the best match best. |
| Hpack.Scan | crates/lb-h2/src/hpack.rs:230-255 | A scan of further entries finds the best match of all. |
| Hpack.FindInTables | crates/lb-h2/src/hpack.rs:226-258 | A full match at the lowest index, else a name match at the lowest index, else none. |
| Hpack.IndexResolves | crates/lb-h2/src/hpack.rs:206-222 | Exactly the indices from 1 to the size of both tables resolve, static entries first. |
| Hpack.EncoderChooses | crates/lb-h2/src/hpack.rs:356-376 | The encoder uses an index exactly for a known header, the index of a name exactly for a known name, and inserts all but known headers. |
| Hpack.EveryIndexDecodes | crates/lb-h2/src/hpack.rs:416-422 | An indexed field decodes to the entry of that index, for every index; zero and those beyond are errors. |
| Hpack.IndexedKnownName | crates/lb-h2/src/hpack.rs:423-444 | A literal with indexing may name any entry; it is inserted. |
| Hpack.UnindexedNewName | crates/lb-h2/src/hpack.rs:445-466 | A literal without indexing, or never indexed, with its own name comes back and leaves the table alone; one whose strings are too long is an error. |
| Hpack.UnindexedKnownName | crates/lb-h2/src/hpack.rs:445-466 | One that names an entry has that entry's name and its own value, and leaves the table alone. |
| Hpack.DecodeBounded | crates/lb-h2/src/hpack.rs:409-481 | No input, well formed or not, takes the decoder's table over its limit. |
| Hpack.DecodeReplays | crates/lb-h2/src/hpack.rs:409-481 | Decoding changes the table by exactly the insertions and size updates of its input. |
| Hpack.DecodeWithinIff | crates/lb-h2/src/hpack.rs:409-481 | Exactly when a block leaves the table within a given limit, such as the one last set from outside, whatever size updates it holds. |
| Hpack.NoRaiseStaysWithin | crates/lb-h2/src/hpack.rs:409-481 | A block without a size update above the limit keeps to it. |
| Hpack.RaisingBlockExceeds | crates/lb-h2/src/hpack.rs:467-472 | A block that takes the table past its limit, for every limit an update can raise. |
| Hpack.HeaderRoundTrip | crates/lb-h2/src/hpack.rs:356-376 | One encoded header decodes to itself with the encoder's table if and only if its integers fit. |
| Hpack.BlockRoundTrip | crates/lb-h2/src/hpack.rs:353-481 | An encoded header list decodes to itself with the encoder's table if its integers fit, and to an error otherwise. |
| Hpack.DeliveredIffFits | crates/lb-h2/src/hpack.rs:353-481 | The same for a whole block as an equivalence. |
| Hpack.SessionLockstep | crates/lb-h2/src/hpack.rs:353-487 | Over a whole connection of header lists and limit changes both ends stay in lockstep exactly when every integer fits. |
| Hpack.OrdinarySession | crates/lb-h2/src/hpack.rs:353-487 | Limits up to 2^40 and strings below 2^35 + 127 octets are enough, for any static table of at most 61 entries. |
| HpackCodec.HpackEncoder.constructor | crates/lb-h2/src/hpack.rs:339-343 | An encoder with an empty table. |
| HpackCodec.HpackEncoder.EncodeOne | crates/lb-h2/src/hpack.rs:356-376 | One header: the specified octets and table. |
| HpackCodec.HpackEncoder.Encode | crates/lb-h2/src/hpack.rs:353-379 | The encoding loop: the specified block and table. |
| HpackCodec.HpackEncoder.SetMaxTableSize | crates/lb-h2/src/hpack.rs:382-384 | The limit change, with its evictions. |
| HpackCodec.HpackDecoder.constructor | crates/lb-h2/src/hpack.rs:398-402 | A decoder with an empty table. |
| HpackCodec.HpackDecoder.DecodeOne | crates/lb-h2/src/hpack.rs:414-477 | One representation by its leading bits, with every error case; errors leave the table alone. |
| HpackCodec.HpackDecoder.Decode | crates/lb-h2/src/hpack.rs:409-481 | The decoding loop: the specified list or error, and the table also after an error. |
| HpackCodec.HpackDecoder.SetMaxTableSize | crates/lb-h2/src/hpack.rs:484-486 | The limit change, with its evictions. |
| HpackCodec.Exchange | crates/lb-h2/src/hpack.rs:332-487 | Two objects with equal tables: a list comes back unchanged with equal tables afterwards if and only if it fits. |
| HpackStatic.DynamicIndicesStartAt62 | crates/lb-h2/src/hpack.rs:18-222 | Dynamic entries start at index 62, newest first, after the 61 static ones. |
| HpackStatic.ConnectionLockstep | crates/lb-h2/src/hpack.rs:18-487 | Lockstep of every ordinary connection over the actual static table. |
| ChunkedText.FindCrlf | crates/lb-h1/src/chunked.rs:342-346 | The first line end, or none at all. |
| ChunkedText.FindDoubleCrlf | crates/lb-h1/src/chunked.rs:349-357 | The first blank line, or none at all. |
| ChunkedText.NoBitLost | crates/lb-h1/src/chunked.rs:328-337 | Within sixteen digits no shift loses a bit. |
| ChunkedText.ParseChunkSizeHex | crates/lb-h1/src/chunked.rs:320-339 | One to sixteen hexadecimal digits give their number on a 64-bit word; everything else is refused. |
| ChunkedText.ParseHexIff | crates/lb-h1/src/chunked.rs:320-339 | The lexer accepts exactly the spellings of a number in at most sixteen digits, in either case and with leading zeros, with that number. |
| ChunkedText.HexIsShortest | crates/lb-h1/src/chunked.rs:265-265 | The printed size is the lower-case spelling without leading zeros. |
| ChunkedText.TcharIsVisibleNonDelimiter | crates/lb-h1/src/parse.rs:23-44 | Token characters are exactly the visible ASCII characters that are not delimiters. |
| ChunkedText.ParseLineIff | crates/lb-h1/src/chunked.rs:197-223 | A trailer line is accepted exactly when it is text and starts with a token and a colon. |
| ChunkedText.LeadingIsWhite | crates/lb-h1/src/chunked.rs:215-219 | A leading character is trimmed exactly when its code point is white space. |
| ChunkedText.TrailingIsWhite | crates/lb-h1/src/chunked.rs:215-219 | A trailing one likewise. |
| Utf8.ValidIffEncoded | crates/lb-h1/src/chunked.rs:201-201 | A string is accepted as text exactly when it encodes a sequence of Unicode scalar values. |
| ChunkedText.HexRoundTrip | crates/lb-h1/src/chunked.rs:258-339 | Printing and parsing a size are inverse for every length below 2^64. |
| ChunkedText.Before | crates/lb-h1/src/chunked.rs:144-148 | The part before the first separator. |
| Chunked.Step | crates/lb-h1/src/chunked.rs:80-122 | Every turn that goes on consumes input or leaves the data state. |
| Chunked.TurnStable | crates/lb-h1/src/chunked.rs:80-231 | A turn decided on partial input is the same turn when more input is there. |
| Chunked.DataTurnJoins | crates/lb-h1/src/chunked.rs:88-103 | A chunk cut in the middle joins up with the next feed. |
| Chunked.SplitIndependence | crates/lb-h1/src/chunked.rs:56-231 | Feeding a then b equals feeding a + b in status, state, buffer, body and trailers; malformed stays malformed. |
| Chunked.AnyCut | crates/lb-h1/src/chunked.rs:56-59 | The same for any number of pieces. |
| Chunked.BodyOnlyGrows | crates/lb-h1/src/chunked.rs:63-65 | Taking the body out between feeds loses and repeats nothing. |
| ChunkedRoundTrip.LineParses | crates/lb-h1/src/chunked.rs:187-225 | A written trailer line is read back. |
| ChunkedRoundTrip.BlankFound | crates/lb-h1/src/chunked.rs:181-190 | The end of the trailers is found only after the last one. |
| ChunkedRoundTrip.ChunksDecode | crates/lb-h1/src/chunked.rs:258-271 | Encoded pieces decode to their concatenation. |
| ChunkedRoundTrip.SpelledChunkDecodes | crates/lb-h1/src/chunked.rs:134-167 | A chunk whose size is spelled in either case, with leading zeros or with an extension decodes as the encoder's own form. |
| ChunkedRoundTrip.BadSizeRefused | crates/lb-h1/src/chunked.rs:134-154 | A size line that spells no number of at most sixteen digits is refused. |
| ChunkedRoundTrip.BadChunkEndRefused | crates/lb-h1/src/chunked.rs:104-112 | Chunk data not followed by a line end is refused. |
| ChunkedRoundTrip.WireExample | crates/lb-h1/src/chunked.rs:258-294 | A chunk and a trailer section as they stand on the wire. |
| ChunkedRoundTrip.TrailersDecode | crates/lb-h1/src/chunked.rs:170-231 | Written trailers come back in order and end the message. |
| ChunkedRoundTrip.MessageDecodes | crates/lb-h1/src/chunked.rs:258-294 | A whole message decodes to body and trailers, leaving following octets in the buffer. |
| ChunkedRoundTrip.RoundTrip | crates/lb-h1/src/chunked.rs:56-294 | The encoder's output fed in any pieces reaches Done with the same body and trailers. |
| ChunkedTrailers.FedSendable | crates/lb-h1/src/chunked.rs:187-225 | Whatever is fed, every trailer a decoder holds has a token name and a trimmed text value without a line end. |
| ChunkedTrailers.SpacedLineParses | crates/lb-h1/src/chunked.rs:203-220 | A trailer line may have any white space around its value. |
| ChunkedTrailers.RoundTripIff | crates/lb-h1/src/chunked.rs:56-294 | Whatever trailers are written, the message comes back in any pieces if and only if all of them are of that kind. |
| ChunkedCodec.PushLines | crates/lb-h1/src/chunked.rs:187-225 | The trailer loop; lines before a bad one stay pushed. |
| ChunkedCodec.ChunkedDecoder.constructor | crates/lb-h1/src/chunked.rs:39-46 | The initial state. |
| ChunkedCodec.ChunkedDecoder.Feed | crates/lb-h1/src/chunked.rs:56-59 | Buffering and running the machine is the specified transition. |
| ChunkedCodec.ChunkedDecoder.TakeBody | crates/lb-h1/src/chunked.rs:63-65 | The body so far is handed over and cleared; nothing else changes. |
| ChunkedCodec.ChunkedDecoder.Process | crates/lb-h1/src/chunked.rs:80-122 | The loop terminates in the specified state. |
| ChunkedCodec.ChunkedDecoder.TryReadSize | crates/lb-h1/src/chunked.rs:134-167 | A size line is consumed, incomplete or refused as specified. |
| ChunkedCodec.ChunkedDecoder.TryReadTrailers | crates/lb-h1/src/chunked.rs:170-231 | The trailer section likewise. |
| ChunkedCodec.ChunkedEncoder.Encode | crates/lb-h1/src/chunked.rs:258-271 | The chunk, nothing for empty data, refused after the end. |
| ChunkedCodec.ChunkedEncoder.Finish | crates/lb-h1/src/chunked.rs:278-294 | The last chunk with its trailers, once. |
| Framing.WholeStream | crates/lb-h2/src/frame.rs:419-445 | For any self-delimiting codec the concatenated encodings decode to exactly the sequence. |
| Framing.EveryPrefix | crates/lb-h2/src/frame.rs:419-445 | ... and every prefix to its complete frames, then incomplete, leaving exactly the rest. |
| H2Frame.U32RoundTrip | crates/lb-h2/src/frame.rs:157-163 | Big-endian words read back. |
| H2Frame.HeaderRoundTrip | crates/lb-h2/src/frame.rs:181-204 | A written frame header parses back, less the reserved stream-id bit. |
| H2Frame.ParamsRoundTrip | crates/lb-h2/src/frame.rs:320-327 | SETTINGS parameters read back in order. |
| H2Frame.PayloadRoundTrip | crates/lb-h2/src/frame.rs:207-401 | The payload and flags of every well-formed frame decode to that frame. |
| H2Frame.DecodedIsWellFormed | crates/lb-h2/src/frame.rs:419-445 | Whatever the octets, a decoded frame is well formed. |
| H2Frame.RoundTripIffWellFormed | crates/lb-h2/src/frame.rs:419-621 | Within the size limits a frame decodes to itself if and only if it is well formed. |
| H2Frame.OversizedRefused | crates/lb-h2/src/frame.rs:422-427 | A frame over the receiver's limit is refused with its size. |
| H2Frame.PartialFrame | crates/lb-h2/src/frame.rs:429-433 | A strict prefix of a frame is incomplete, never an error or a frame. |
| H2Frame.PaddingTransparent | crates/lb-h2/src/frame.rs:136-263 | Legal padding never changes the decoded DATA or HEADERS frame. |
| H2Frame.PaddedFrameDecodes | crates/lb-h2/src/frame.rs:136-445 | On the wire, with its longer length field within the limit, a padded frame decodes to the same frame or error as the unpadded one and takes exactly its own octets. |
| H2Frame.PrioritySkipped | crates/lb-h2/src/frame.rs:232-262 | Five octets of priority before a header block are skipped: the frame is the same. |
| H2Frame.PriorityTooShort | crates/lb-h2/src/frame.rs:249-253 | With fewer the frame is malformed. |
| H2Frame.AcceptedIff | crates/lb-h2/src/frame.rs:207-401 | Apart from padding and priority fields, the payload lengths of section 6 of RFC 9113 decide exactly what is accepted. |
| H2Frame.BigEndian | crates/lb-h2/src/frame.rs:157-170 | Numbers have their most significant octet first. |
| H2Frame.WireLayout | crates/lb-h2/src/frame.rs:600-621 | Length, type, flags and stream id of every frame, each in its place, then the payload. |
| H2Frame.PayloadLayout | crates/lb-h2/src/frame.rs:468-597 | The order of the fields inside the payloads that have several. |
| H2Frame.PaddingRefused | crates/lb-h2/src/frame.rs:136-154 | Padding is refused exactly when the payload is not pad length, content and that much padding. |
| H2Frame.StreamRoundTrip | crates/lb-h2/src/frame.rs:419-621 | A concatenated sequence of well-formed frames decodes to exactly that sequence. |
| H2Frame.StreamPrefix | crates/lb-h2/src/frame.rs:419-445 | Every prefix of it yields its complete frames, then incomplete. |
| H2Frame.DecodeParams | crates/lb-h2/src/frame.rs:320-327 | The SETTINGS loop reads the specified parameters. |
| Checksum.Accumulate | crates/lb-l4-xdp/src/sim.rs:235-246 | The wrapping loop, with its odd octet, computes the word sum modulo 2^32. |
| Checksum.ComputeFullChecksum | crates/lb-l4-xdp/src/sim.rs:235-248 | The folded complement of that sum. |
| Checksum.SumExamples | crates/lb-l4-xdp/src/sim.rs:235-246 | The word sum of the example in section 3 of RFC 1071, and of an odd octet. |
| Checksum.FoldExample | crates/lb-l4-xdp/src/sim.rs:217-221 | ... and the checksum of the former. |
| Checksum.FoldQuotient | crates/lb-l4-xdp/src/sim.rs:217-221 | Folding reduces modulo 65535 and gives zero only for zero. |
| Checksum.WrittenSum | crates/lb-l4-xdp/src/sim.rs:235-248 | Rewriting a word changes the word sum by exactly the difference. |
| Checksum.UpdateAdditive | crates/lb-l4-xdp/src/sim.rs:226-229 | An update moves the complement by the difference of the fields, modulo 65535. |
| Checksum.UpdateLeavesAllOnes | crates/lb-l4-xdp/src/sim.rs:226-229 | It gives 0xFFFF only from 0xFFFF, by turning a field of 0xFFFF into zero. |
| Checksum.ChainEqualsFull | crates/lb-l4-xdp/src/sim.rs:217-248 | For every buffer and every chain of word rewrites: the updated checksum is the full one if and only if the 32-bit accumulator wraps equally often, modulo 65535, for both buffers, and its zero cases agree. |
| Checksum.ChainEqualsFullUnwrapped | crates/lb-l4-xdp/src/sim.rs:217-248 | While the sums stay below 2^32: after any non-empty chain, if and only if the final buffer is not all zero. |
| Checksum.AgreesUpTo131074 | crates/lb-l4-xdp/src/sim.rs:217-248 | That holds of every buffer of a given length if and only if the length is at most 131074 octets. |
| Checksum.OverfullDisagrees | crates/lb-l4-xdp/src/sim.rs:240-244 | For every greater length, a buffer and a single rewrite for which it fails. |
| Checksum.UpdateReversible | crates/lb-l4-xdp/src/sim.rs:226-229 | An update is undone by its inverse if and only if the checksum is not 0xFFFF. |
| Conntrack.RunValid | crates/lb-l4-xdp/src/lib.rs:164-192 | Over any run the queue is duplicate-free, holds exactly the map's flows and stays within capacity. |
| Conntrack.ApplyEffect | crates/lb-l4-xdp/src/lib.rs:164-192 | A tracked flow is updated in place and keeps its turn, a new one becomes the newest, a removed one is gone. |
| Conntrack.ApplyKeeps | crates/lb-l4-xdp/src/lib.rs:164-192 | One operation keeps another flow's index unless it evicts it as the oldest. |
| Conntrack.Survives | crates/lb-l4-xdp/src/lib.rs:164-183 | A flow survives while later new flows number less than the capacity. |
| Conntrack.EvictedInTurn | crates/lb-l4-xdp/src/lib.rs:171-179 | ... and without removals is gone after that many. |
| Conntrack.SizesAgree | crates/lb-l4-xdp/src/lib.rs:171-179 | Map and queue have the same size. |
| Conntrack.ConntrackTable.constructor | crates/lb-l4-xdp/src/lib.rs:147-153 | An empty table; a capacity of zero becomes one. |
| Conntrack.ConntrackTable.Insert | crates/lb-l4-xdp/src/lib.rs:164-183 | The eviction loop is the specified transition. |
| Conntrack.ConntrackTable.Remove | crates/lb-l4-xdp/src/lib.rs:186-192 | Removal from both map and queue, returning the old index. |
| HotSwap.RunKeepsValid | crates/lb-l4-xdp/src/lib.rs:375-435 | Over any run of routes, swaps and edits the tracking table and Maglev table stay valid. |
| HotSwap.EveryRouteInRange | crates/lb-l4-xdp/src/lib.rs:422-434 | After any run every flow is routed below the current backend count and routed there again next time. |
| HotSwap.RouteInserts | crates/lb-l4-xdp/src/lib.rs:427-433 | An untracked or out-of-range flow is tracked as the newest with the table's choice. |
| HotSwap.IndexSticks | crates/lb-l4-xdp/src/lib.rs:400-434 | A tracked flow keeps its index unless edited, evicted, or routed while out of range. |
| HotSwap.IndexSticksOverRun | crates/lb-l4-xdp/src/lib.rs:400-434 | The same over whole runs with swaps. |
| HotSwap.FlowSurvivesRun | crates/lb-l4-xdp/src/lib.rs:164-434 | Over a whole run a flow keeps its index while the flows queued after it number less than the capacity. |
| HotSwap.NewManager | crates/lb-l4-xdp/src/lib.rs:386-392 | Construction fails exactly as the table build does; otherwise a manager with that table and an empty tracking table of a million entries. |
| HotSwap.HotSwapManager.constructor | crates/lb-l4-xdp/src/lib.rs:388-391 | The manager around a built table. |
| HotSwap.HotSwapManager.SwapBackends | crates/lb-l4-xdp/src/lib.rs:400-408 | A failed build changes nothing and reports the build's error; a successful one replaces the table by the reference table of the new backends and keeps every flow. |
| HotSwap.HotSwapManager.RouteFlow | crates/lb-l4-xdp/src/lib.rs:422-434 | Routing is the specified transition and answer. |
| TokenBucket.RefillIsEarned | crates/lb-l4-xdp/src/loader.rs:1602-1606 | Refilled tokens are covered by elapsed time, and only a later clock refills. |
| TokenBucket.RefillExact | crates/lb-l4-xdp/src/loader.rs:1604-1607 | The refill is exactly the whole number of tokens earned, while that fits a word. |
| TokenBucket.NextFunded | crates/lb-l4-xdp/src/loader.rs:1597-1647 | Every atomic step of any caller keeps tokens, claims and admissions funded. |
| TokenBucket.AdmissionBound | crates/lb-l4-xdp/src/loader.rs:1575-1647 | In every interleaving tokens never exceed the burst and admissions never exceed burst + rate * (last refill - start) / 10^9. |
| TokenBucket.LastOnlyGrows | crates/lb-l4-xdp/src/loader.rs:1607-1612 | The refill stamp never goes back, whatever the clocks read. |
| TokenBucket.LastIsAReading | crates/lb-l4-xdp/src/loader.rs:1601-1612 | It never passes the latest clock value a call has read. |
| TokenBucket.AdmissionBoundByClock | crates/lb-l4-xdp/src/loader.rs:1575-1647 | The admission bound in terms of the clock readings alone. |
| TokenBucket.DisabledAdmitsAll | crates/lb-l4-xdp/src/loader.rs:1598-1600 | A rate of zero admits every call. |
| TokenBucket.SoloIsSequential | crates/lb-l4-xdp/src/loader.rs:1597-1647 | An undisturbed call finishes within seven operations with the sequential result. |
| TokenBucket.SoloAdmission | crates/lb-l4-xdp/src/loader.rs:1597-1647 | An undisturbed call is admitted if and only if a token was there or a whole one has been earned since the last refill, and leaves what was there and earned, capped at the burst, less one: this holds if and only if the tokens earned fit a word or what the cast leaves of them still fills the bucket. |
| TokenBucket.TruncationDenies | crates/lb-l4-xdp/src/loader.rs:1606-1607 | A gate idle so long that the cast leaves nothing denies a call it has earned. |
| TokenBucket.BurstServed | crates/lb-l4-xdp/src/loader.rs:1575-1582 | A new gate admits exactly its burst at once. |
| TcpPool.NextAccounted | crates/lb-io/src/pool.rs:222-231 | Every step keeps total equal to parked connections plus owed counter updates. |
| TcpPool.RunInv | crates/lb-io/src/pool.rs:222-482 | In every interleaving the accounting holds, each queue lock has one holder, and queues stay within the per-peer limit (or one, if it is zero). |
| TcpPool.FirstInFirstOut | crates/lb-io/src/pool.rs:222-482 | In every interleaving what leaves a queue is what entered it, in that order. |
| TcpPool.ParksOrEvicts | crates/lb-io/src/pool.rs:467-481 | Below the per-peer limit a releaser parks at the back without evicting; at it, it evicts the oldest first. |
| TcpPool.ReleasedIsParked | crates/lb-io/src/pool.rs:457-482 | Below both limits, and undisturbed, a released connection ends up at the back of its peer's queue. |
| TcpPool.PopTakesOldest | crates/lb-io/src/pool.rs:222-231 | An acquirer takes the oldest connection of its peer. |
| TcpPool.QuiescentTotal | crates/lb-io/src/pool.rs:150-152 | With no operation under way the counter is the number of parked connections. |
| TcpPool.NoUnderflow | crates/lb-io/src/pool.rs:227-229 | Every decrement finds a counter of at least one. |
| TcpPool.NeverNegative | crates/lb-io/src/pool.rs:222-482 | The counter is never negative in any run. |
| TcpPool.TotalBound | crates/lb-io/src/pool.rs:457-482 | With at most k concurrent releasers the counter stays at most total_max - 1 + k. |
| TcpPool.OvershootIsReached | crates/lb-io/src/pool.rs:457-482 | For every limit and k a schedule reaches that bound. |
| TcpPool.ReleasersAreThreads | crates/lb-io/src/pool.rs:457-482 | k threads are at most k releasers, so that schedule is within the bound's premise. |
| DrainLatch.StepLed | crates/lb-core/src/shutdown.rs:268-421 | A step keeps the latch holder, its script and what is published. |
| DrainLatch.RunSound | crates/lb-core/src/shutdown.rs:192-422 | The latch invariant holds in every interleaving of callers, drops and panics included. |
| DrainLatch.OneRunnerInOrder | crates/lb-core/src/shutdown.rs:198-421 | At most one caller runs any phase, in source order, none skipped or repeated. |
| DrainLatch.SameReport | crates/lb-core/src/shutdown.rs:205-234 | Every caller that returned got the winner's stored report, never the stub. |
| DrainLatch.PhasesInOrder | crates/lb-core/src/shutdown.rs:268-419 | Action number j of every run is that of phase j, by one caller, as its spec asks. |
| DrainLatch.CompletedHasReport | crates/lb-core/src/shutdown.rs:397-419 | Completion implies a stored report whose total is timed out exactly when the wait was, or the detach timed out or failed. |
| DrainLatch.WinnerReports | crates/lb-core/src/shutdown.rs:236-421 | An undisturbed winner publishes its own measurements, each in its own place. |
| DrainLatch.AwaitsIff | crates/lb-core/src/shutdown.rs:281-374 | A winner can be dropped exactly at the settle, the jitter, the in-flight wait and the detach, where its spec has them. |
| DrainLatch.StopsIff | crates/lb-core/src/shutdown.rs:192-422 | What a drop and a panic do to each caller. |
| DrainLatch.ListenersBeforeConnections | crates/lb-core/src/shutdown.rs:289-334 | An enabled listener cancel precedes the connection cancel; listeners end up cancelled exactly when it was enabled or the root handle drained. |
| DrainLatch.ReturnsIffNotAbandoned | crates/lb-core/src/shutdown.rs:192-422 | After every run, a caller still alive can be brought to return if and only if no winner was dropped at an await, or panicked in code it was given, before completing. |
| DrainLatch.StrandedForEver | crates/lb-core/src/shutdown.rs:198-208 | After that no schedule lets any caller return. |
| DrainLatch.WinnerFinishes | crates/lb-core/src/shutdown.rs:268-421 | Without one the winner by itself completes, publishes and returns. |
| DrainLatch.SettlingWinnerCanBeDropped | crates/lb-core/src/shutdown.rs:278-283 | A run from the start in which a winner dropped in its readiness settle strands a waiting caller. |
| IdleSend.RunInv | crates/lb-io/src/idle_send.rs:115-175 | The timed invariant holds in every interleaving of helper, pump, future and clock. |
| IdleSend.NoSpuriousTimeout | crates/lb-io/src/idle_send.rs:115-175 | Gaps below idle and a response within the head timeout of completion never time out. |
| IdleSend.ProgressPreventsIdle | crates/lb-io/src/idle_send.rs:139-173 | Progress within every idle period never gives an idle timeout. |
| IdleSend.IdleFiresExactly | crates/lb-io/src/idle_send.rs:139-173 | An idle timeout comes exactly one idle period after the last progress seen, and not after completion. |
| IdleSend.HeadFiresInWindow | crates/lb-io/src/idle_send.rs:118-142 | A head timeout fires between completion + head and completion + idle + head. |
| IdleSend.CompletionBoundsWait | crates/lb-io/src/idle_send.rs:118-142 | After completion the helper is never still waiting past that window. |
| IdleSend.WedgeFires | crates/lb-io/src/idle_send.rs:117-173 | With no progress for one idle period the clock cannot move on and the helper's own next steps end in the idle timeout. |
| IdleSend.StoppedPump | crates/lb-io/src/idle_send.rs:115-175 | Over every run, a pump that stops without completing gives an idle timeout exactly at last progress + idle, never earlier or later. |
| IdleSend.HeadWedgeFires | crates/lb-io/src/idle_send.rs:138-142 | Complete but without a response, the helper ends in a head timeout at its deadline. |
| IdleSend.ResponseEnds | crates/lb-io/src/idle_send.rs:127-138 | Once the response is there the helper ends before the clock moves on. |
| IdleSend.IdleTimeoutIsReached | crates/lb-io/src/idle_send.rs:117-173 | When nothing happens the idle timeout is reached, at its time. |
| IdleSend.HeadTimeoutIsReached | crates/lb-io/src/idle_send.rs:117-142 | With the upload complete and no response the head timeout is reached, at its time. |
| IdleSend.GapIsLargest | crates/lb-io/src/idle_send.rs:115-175 | The gap in the premises above is the longest time between two successive pieces of progress. |

## Left out

- IsPrimeWord: what a release build computes after `i * i` wraps is not modelled, only exactly when it does; the same holds of probes in `Populate` and weights in `Pick`, and of the state they leave then.
- BinarySearch: the standard library's sort and binary search are written out; which of several equal hashes is returned is left open (`SearchResult`).
- WriteInt: lengths are unbounded integers; `usize` overflow of lengths beyond memory is not modelled.
- RunSound: durations and task-tracker results are inputs of the steps; the length of sleeps, jitter and timeouts is not modelled. A panic stops its caller only, as it does without `panic = "abort"`.
- IdleSend.RunInv: the helper is never scheduled late and the clock counts whole milliseconds.
- TcpPool.RunInv: sockets, liveness probes, expiry and map-shard locks are abstracted to which connections are parked.
- AdmissionBound: atomics are sequentially consistent; relaxed reordering between the two counters is not modelled.
- Memory representation: buffers, deques and vectors are value sequences held in fields, so capacity and reallocation are not modelled.
- The hash functions themselves, and statistical claims about distribution.
- Huffman coding, which the HPACK code does not do: the Huffman bit is ignored and the octets are taken as they are.
- Header, request and response parsing of HTTP/1.1 outside chunked coding; HTTP/2 connection and flow-control state.
- The other pickers (round robin, least connections, power of two choices, random, session affinity): short argmin or modulo bodies.
- BPF loading and netlink, io_uring, DNS, the HTTP/2 and QUIC pools, configuration, control plane, health checks, gRPC, the HTTP/3 test codec: kernel or library calls, or easy members.
