# Verified models of modern-go

Dafny models of five parts of the Go repository, each proved against a plain specification. Check
everything with `dafny verify dfyconfig.toml`.

| part | files |
|---|---|
| ranked skip list (`container/skiplist`) | `Order.dfy`, `Levels.dfy`, `Listing.dfy`, `Links.dfy`, `SkipList.dfy` |
| Diffie-Hellman over 64-bit words (`crypto/dh64`) | `ModArith.dfy`, `DH64.dfy` |
| sharded concurrent map (`container/templates/cmap`) | `Shards.dfy`, `ShardedMap.dfy`, `MapWalk.dfy` |
| goroutine-local store (`gls`) | `GlsSpec.dfy`, `GlsValue.dfy`, `GlsClosing.dfy`, `GlsCalls.dfy`, `Gls.dfy` |
| array with in-place algorithms (`container/carray`) | `CArray.dfy` |
| shared | `Sequences.dfy`, `FiniteSets.dfy`, `Options.dfy` |

**Skip list.** `RankedSet` is a heap class with the source's fields; the 32-entry link arrays of a node
are Go values inside the node, so they are sequence fields that are reassigned. Ghost fields hold the
level-0 node sequence and the height of each node. `Levels` says, on heights alone, who follows whom on
a level; `Links.Exact` says that every link and every span agrees with that; the lemmas of `Links` show
that relinking keeps it, on snapshots of the fields. `Listing` has the reference model: a plain map and
its unique sorted listing. The two objects `Set` and `skipList` of the source are one class here, and
the drawn level is a parameter. `Del` and `insert` are split into the methods that correspond to their
loops; the search loop that they have in common is written once.

**Diffie-Hellman.** Words are integers below 2^64 and every operation wraps explicitly; the bitwise or
that joins a private key is defined bit by bit. The modulus is
2^64 - 59, so doubling really wraps. The body of the multiplication loop is split into its two
statements.

**Sharded map.** `ShardedMap` is the map as it is, with calls one after another, generic in key, value
and hash. `MapWalk` is the transition system of one walk (`Keys`, `GetAll`, `Iter`, `Count`) under
arbitrary interleaving with single-shard writes: the walk locks a shard, lists its entries one by one
and unlocks it, or for `Count` only adds its size, and writers may change every other shard at any
moment.

**Goroutine-local store.** `GlsSpec` is a state machine of calls and of exits in progress. A handler is
whatever calls happen between its start and the next start, so the theorems hold for all handlers,
re-entrant ones and panicking ones included, and for any calls of other goroutines in between.
`GlsValue` is the close-once wrapper and the closing loop. `Gls` is the store with its heap records and
wrappers; each method is proved to be the step, and an exit the series of steps, of the state machine.
`GlsClosing` ties each bulk close of the log to the wrappers it shuts and says which steps a handler's
body and a whole exit take. `GlsCalls` says what a run comes to by its calls alone: who has an entry,
what is held, which handlers wait and what has been closed. `Gls.Life` puts all of it together for every series of calls and exits from
a new store.

**Arrays.** The slice is a buffer, an offset and a length, and the algorithms work in the buffer.

Where the code does not do what its comments say, the model follows the code:

* `GetRank` answers 0 for the present empty key exactly when the highest level leads past it, because
  the header has the empty key too (`SkipList.RankedSet.GetRank`, `SkipList.EmptyKeyMissed`).
* `SetNX` always returns true; the answer tells whether the value was stored exactly when the key was
  absent (`ShardedMap.ConcurrentMap.SetNX`).
* `Shuffle` is not fair: a draw that only exchanges pairs puts each pair back. Exactly from two
  elements on, different draws give the same arrangement and some arrangement never comes up
  (`CArray.ShuffleIsNotFair`, `CArray.SomeNeverComesUp`); two elements are never changed
  (`CArray.TwoAreNeverShuffled`).
* The base p itself is not reduced, so its first power is p and not 0 (`DH64.PowIsCorrectExactly`).
* The multiplication is right exactly for a base up to p or a zero second factor; for a larger base the
  unsigned `p - a` is not the distance to p (`DH64.MulModP`). The callers reduce the base.
* A private key's second half is a 32-bit draw plus one, which can carry into the first half, so a
  64-bit key with zero low half and even high half is never drawn (`DH64.ComposedKeys`).

## Model

| member | source | states |
|---|---|---|
| Order.LessTotal | container/skiplist/skiplist.go:153 | the comparison by score and then key is total, asymmetric and irreflexive |
| Order.LessTransitive | container/skiplist/skiplist.go:153 | the comparison is transitive |
| Order.LessMeans | container/skiplist/skiplist.go:153 | the score decides; among equal scores the first byte that differs does, or the shorter key is a proper prefix |
| Order.KeyLessIsBytewise | container/skiplist/skiplist.go:153 | the key order is Go's bytewise order of strings |
| Order.KeyLessTotal | container/skiplist/skiplist.go:153 | bytewise string order is total and asymmetric |
| Order.KeyLessTransitive | container/skiplist/skiplist.go:153 | bytewise string order is transitive |
| Levels.NextAfterInsert | container/skiplist/skiplist.go:251-259 | which successors change on each level when a node of any height is put in anywhere |
| Levels.NextOfInserted | container/skiplist/skiplist.go:252 | the new node's successor is its predecessor's old one |
| Levels.NextAfterRemove | container/skiplist/skiplist.go:160-167 | successors of all nodes but the predecessors are kept by a removal |
| Levels.NextAfterUnlink | container/skiplist/skiplist.go:160-167 | the predecessor links to the node exactly on the levels it reaches, and inherits its successor |
| Levels.ChainIsLevel | container/skiplist/skiplist.go:18-21 | the chain of a level is increasing and holds exactly the nodes that reach the level |
| Levels.ChainsNest | container/skiplist/skiplist.go:18-21 | each level's chain is a subsequence of the chain below |
| Listing.CutSplits | container/skiplist/skiplist.go:235-238 | in a sorted list the entries smaller than a target are exactly those before one position |
| Listing.ListingUnique | container/skiplist/skiplist.go:36-40 | a map has at most one sorted listing |
| Listing.ListingAfterInsert | container/skiplist/skiplist.go:220-271 | adding an absent key puts one entry at its cut and changes nothing else |
| Listing.ListingAfterRemove | container/skiplist/skiplist.go:141-180 | dropping a key takes exactly its entry out |
| Listing.RankIsPosition | container/skiplist/skiplist.go:109-130 | one plus the number of smaller entries is the position in the listing |
| Listing.RankCounts | container/skiplist/skiplist.go:109-130 | a rank is one plus the number of keys with a smaller score, or with an equal score and bytewise before |
| Listing.RankFollowsScore | container/skiplist/skiplist.go:109-130 | of two keys the one with the smaller score, or bytewise first among equal scores, has the smaller rank |
| Listing.PositionByScore | container/skiplist/skiplist.go:73-98 | fewer than rank keys have a smaller score than the entry at the rank, and at least rank have at most its score |
| Listing.PositionFromEnd | container/skiplist/skiplist.go:94-98 | the same counted from the far end |
| Listing.EntryAtRank | container/skiplist/skiplist.go:73-98 | ranks run through 1..length and each leads back to its key's entry, in the listing and in the reversed listing |
| Listing.ListingLength | container/skiplist/skiplist.go:268 | the listing has one entry for each key |
| Links.InsertKeepsExact | container/skiplist/skiplist.go:251-259 | the link and span arithmetic of insert keeps every link and span of every level exact |
| Links.RemoveKeepsExact | container/skiplist/skiplist.go:160-167 | the merge-or-decrement of Del keeps every link and span of every level exact |
| Links.RaiseKeepsExact | container/skiplist/skiplist.go:242-248 | stale header spans are made right when levels come into use again |
| Links.LowerKeepsBounded | container/skiplist/skiplist.go:173-175 | a level without nodes can be given up |
| Links.ExactTestsHeight | container/skiplist/skiplist.go:161 | Del's pointer test on a level says whether the node is on that level |
| SkipList.SortedSplitsBefore | container/skiplist/skiplist.go:153-155 | the search comparison of Del and insert separates a sorted list at one position |
| SkipList.SortedSplitsAfter | container/skiplist/skiplist.go:121-124 | the comparison of GetRank stops right behind the target's own node |
| SkipList.OrderedAfterInsert | container/skiplist/skiplist.go:250-269 | after insert the nodes are the sorted listing of the new dictionary |
| SkipList.OrderedAfterRemove | container/skiplist/skiplist.go:158-178 | after Del the nodes are the sorted listing of the smaller dictionary |
| SkipList.BackLinkedAfterInsert | container/skiplist/skiplist.go:260-267 | one backward link and the tail or the next backward link are all that insert has to set |
| SkipList.BackLinkedAfterRemove | container/skiplist/skiplist.go:168-172 | one backward link or the tail is all that Del has to set |
| SkipList.RankedSet.constructor | container/skiplist/skiplist.go:42-64 | a new set is valid, empty, has one level in use and 32 links in its header |
| SkipList.RankedSet.GetElementByRankASC | container/skiplist/skiplist.go:73-92 | span jumps find the entry of rank r for 1 <= r <= length, and the zero value for every other r |
| SkipList.RankedSet.GetElementByRankDESC | container/skiplist/skiplist.go:94-98 | the same from the far end, for every 64-bit rank, wrap-around included |
| SkipList.RankedSet.Locate | container/skiplist/skiplist.go:113-119 | a dictionary key stands at one position, its rank, and the loop comparisons separate there |
| SkipList.RankedSet.GetRank | container/skiplist/skiplist.go:109-130 | error exactly for absent keys; one plus the number of smaller entries, or 0 for the empty key exactly when the top level leads past it |
| SkipList.RankedSet.DescendTo | container/skiplist/skiplist.go:116-129 | the descent ends at the target, or with 0 at the header for the empty key |
| SkipList.RankedSet.GetRankDESC | container/skiplist/skiplist.go:132-139 | length plus one minus the ascending rank |
| SkipList.RankedSet.FindPredecessors | container/skiplist/skiplist.go:228-240 | update and rank name, on every level in use, the last node before the position and its position |
| SkipList.RankedSet.RaiseLevel | container/skiplist/skiplist.go:242-249 | new levels start at the header with exact spans |
| SkipList.RankedSet.Splice | container/skiplist/skiplist.go:251-259 | after the two relinking loops all links and spans are exact for the longer list |
| SkipList.RankedSet.LinkBack | container/skiplist/skiplist.go:260-267 | backward links and tail are the reverse chain of the longer list |
| SkipList.RankedSet.InsertNode | container/skiplist/skiplist.go:220-271 | the structure stays right and has the new node at its position with its drawn height |
| SkipList.RankedSet.InsertAtCut | container/skiplist/skiplist.go:220-271 | insert adds exactly one node, at the cut of its entry, with the drawn height |
| SkipList.RankedSet.Insert | container/skiplist/skiplist.go:220-271 | an absent key is added and the set stays valid, for every drawn level |
| SkipList.RankedSet.Unlink | container/skiplist/skiplist.go:160-167 | after the relinking loop all links and spans are exact for the shorter list |
| SkipList.RankedSet.UnlinkBack | container/skiplist/skiplist.go:168-172 | backward links and tail are the reverse chain of the shorter list |
| SkipList.RankedSet.LowerLevel | container/skiplist/skiplist.go:173-175 | the highest level kept has a node, unless it is the only one |
| SkipList.RankedSet.RemoveFound | container/skiplist/skiplist.go:148-177 | the search ends right before the key's own node, the removal branch is taken, and only that node goes |
| SkipList.RankedSet.Del | container/skiplist/skiplist.go:141-180 | error exactly for an absent key, then nothing changes; otherwise the map loses exactly that key and the set stays valid |
| SkipList.RankedSet.Set | container/skiplist/skiplist.go:182-186 | the map gets the key with the score, whether or not it had it; the returned node is the key's new node; the set stays valid |
| SkipList.RankedSet.GetScore | container/skiplist/skiplist.go:99-107 | the stored score, or an error exactly for an absent key |
| SkipList.RankedSet.HasKey | container/skiplist/skiplist.go:297-304 | whether the map has the key |
| SkipList.RankedSet.GetTopN | container/skiplist/skiplist.go:188-202 | none for n up to 0, else n entries or all there are: rising scores, bytewise rising keys among equal scores, and no key left out has a smaller score |
| SkipList.RankedSet.GetTopNDESC | container/skiplist/skiplist.go:204-218 | the mirror image, from the tail: falling scores, bytewise falling keys among equal scores, and no key left out has a larger score |
| SkipList.RankedSet.IdleLevels | container/skiplist/skiplist.go:47-50 | the header has no links above the levels in use |
| SkipList.RankedSet.FollowIsChain | container/skiplist/skiplist.go:18-21 | following the links of a level visits exactly the nodes that reach it, in order, and ends |
| SkipList.Step | container/skiplist/skiplist.go:141-186 | one call does to the set what it does to a plain map |
| SkipList.LastCallDecides | container/skiplist/skiplist.go:141-186 | the last call on a key decides whether it is present, and with which score |
| SkipList.FailuresMean | container/skiplist/skiplist.go:141-180 | exactly the deletions of keys that are absent at that moment fail |
| SkipList.Run | container/skiplist/skiplist.go:56-186 | every run of Set and Del from the empty set, for all drawn levels, keeps the set valid and equal to the plain map, and reports exactly the plain map's missing keys; the last call on each key decides |
| SkipList.LevelsDoNotMatter | container/skiplist/skiplist.go:285-296 | two sets that hold the same map list the same entries, however their levels were drawn |
| SkipList.RankRoundTrip | container/skiplist/skiplist.go:73-139 | from key to rank to entry: ascending and descending rank add up to length plus one, and each leads back to the key's entry |
| SkipList.EntryRoundTrip | container/skiplist/skiplist.go:73-130 | the key at each rank is present and has that rank, but for the empty key that the highest level leads past |
| SkipList.RanksByScore | container/skiplist/skiplist.go:73-98 | rising ranks have rising scores, and bytewise rising keys among equal scores |
| SkipList.RanksByScoreDESC | container/skiplist/skiplist.go:94-98 | rising descending ranks have falling scores, and bytewise falling keys among equal scores |
| SkipList.CompareRanks | container/skiplist/skiplist.go:109-130 | of two keys the one with the smaller score, or bytewise first among equal scores, gets the smaller rank |
| SkipList.TwoEntries | container/skiplist/skiplist.go:220-271 | a run whose highest level leads past the first entry |
| SkipList.EmptyKeyMissed | container/skiplist/skiplist.go:125-127 | a set in which the empty key is present with rank 1 and GetRank answers 0 |
| DH64.WrappingIsExact | crypto/dh64/dh64.go:16-26 | for a base up to p the wrapping subtractions, addition and doubling of the loop are exact, also when the doubling wraps |
| DH64.WrappingAbove | crypto/dh64/dh64.go:16-26 | for a base above p the doubling falls short by 2^64 - p and the next base is below p |
| DH64.RoundKeepsSum | crypto/dh64/dh64.go:14-29 | one round moves m + a*b by a multiple of p, up to what the doubling of a base above p misses |
| DH64.LossShows | crypto/dh64/dh64.go:22-26 | what is missed for a base above p is a multiple of p only if the second factor is 0 or 1 |
| DH64.MulModP | crypto/dh64/dh64.go:12-31 | for all words, the result is the product modulo p if and only if the base is at most p or the other factor 0; otherwise it misses a known amount |
| DH64.FirstSquare | crypto/dh64/dh64.go:37-38 | the first square comes out reduced for any base, a wrong one above p included, so nothing after it goes wrong |
| DH64.SquareStep | crypto/dh64/dh64.go:37-42 | one level of the recursion squares what it gets and multiplies by the base for an odd exponent, modulo p |
| DH64.PowerOfIsPower | crypto/dh64/dh64.go:33-43 | for a base up to p what the recursion computes is the power |
| DH64.PowModP | crypto/dh64/dh64.go:33-43 | the result for every base and every exponent from 1; from exponent 2 it is the power modulo p for every base up to p |
| DH64.PowModPChecked | crypto/dh64/dh64.go:45-56 | both panics, the reduction of a base above p, and the power |
| DH64.PanicsExactly | crypto/dh64/dh64.go:46-51 | which key makes the operations panic: a zero public key, else a zero private key |
| DH64.PowIsCorrectExactly | crypto/dh64/dh64.go:45-56 | the result is a^b mod p for all nonzero a and b, except exactly for base p with exponent 1 |
| DH64.PublicKey | crypto/dh64/dh64.go:66-68 | 5^x modulo 2^64 - 59, and a panic exactly for the zero key |
| DH64.Secret | crypto/dh64/dh64.go:70-72 | the power of the peer's key, and which of the two zero keys makes it panic |
| DH64.PublicKeyInRange | crypto/dh64/dh64.go:66-68 | every nonzero private key has a public key in 1..p-1 |
| DH64.KeyAgreement | crypto/dh64/dh64.go:66-72 | both sides get the same secret, 5^(x*y) mod p, for all nonzero private keys; it is never 0 |
| DH64.Exchange | crypto/dh64/dh64.go:66-72 | an exchange never panics and gives one common nonzero secret |
| DH64.ComposedKeys | crypto/dh64/dh64.go:59-61 | which words can be drawn as private keys, both directions |
| DH64.KeyNumber | crypto/dh64/dh64.go:59-61 | the drawn key as a number, the carry of the second draw included; it is never zero |
| DH64.OrBit | crypto/dh64/dh64.go:61 | the or sets exactly the bits that one of the two has |
| DH64.KeyPair | crypto/dh64/dh64.go:58-64 | key generation never panics and gives a nonzero private key with its public key in 1..p-1 |
| Shards.Lookup | container/templates/cmap/cmap_template.go:48-51 | a key is in the plain map exactly if it is in the one shard its hash selects, with the same value |
| Shards.TotalIsSize | container/templates/cmap/cmap_template.go:141-150 | the shard sizes add up to the number of keys |
| Shards.OpKeepsPlaced | container/templates/cmap/cmap_template.go:58-63 | no operation puts a key into a foreign shard |
| Shards.OpRefinesMap | container/templates/cmap/cmap_template.go:58-174 | each critical section on one shard is one step of the plain map |
| Shards.StoreOneMore | container/templates/cmap/cmap_template.go:112-117 | one more binding of a bulk store, in any order |
| ShardedMap.ConcurrentMap.constructor | container/templates/cmap/cmap_template.go:30-36 | a new map is valid and empty |
| ShardedMap.ConcurrentMap.GetShard | container/templates/cmap/cmap_template.go:48-51 | the shard at the hash modulo the shard count; a key is in the map exactly if it is in that shard, and in no other |
| ShardedMap.ConcurrentMap.Locked | container/templates/cmap/cmap_template.go:58-63 | a critical section changes one shard and refines the plain map's step |
| ShardedMap.ConcurrentMap.Set | container/templates/cmap/cmap_template.go:58-63 | the plain map gets the binding |
| ShardedMap.ConcurrentMap.SetNX | container/templates/cmap/cmap_template.go:119-131 | a present key keeps its value, an absent one gets it; the answer, always true, tells whether the value was stored exactly when the key was absent |
| ShardedMap.ConcurrentMap.Get | container/templates/cmap/cmap_template.go:133-139 | the plain map's value |
| ShardedMap.ConcurrentMap.Remove | container/templates/cmap/cmap_template.go:160-165 | the plain map loses the key |
| ShardedMap.ConcurrentMap.GetAndRemove | container/templates/cmap/cmap_template.go:167-174 | the old value, and the plain map loses the key |
| ShardedMap.ConcurrentMap.MSet | container/templates/cmap/cmap_template.go:112-117 | the plain map is overwritten by the argument, for every iteration order |
| ShardedMap.ConcurrentMap.MGet | container/templates/cmap/cmap_template.go:78-87 | exactly the present ones of the asked keys, with their values |
| ShardedMap.ConcurrentMap.GetAll | container/templates/cmap/cmap_template.go:89-101 | the plain map |
| ShardedMap.ConcurrentMap.Collect | container/templates/cmap/cmap_template.go:70-72 | one shard's entries are added once each, in any order |
| ShardedMap.ConcurrentMap.Entries | container/templates/cmap/cmap_template.go:65-76 | the undisturbed walk lists every entry exactly once |
| ShardedMap.ConcurrentMap.Count | container/templates/cmap/cmap_template.go:141-150 | the number of keys |
| ShardedMap.ConcurrentMap.Clear | container/templates/cmap/cmap_template.go:103-110 | the plain map becomes empty |
| ShardedMap.ConcurrentMap.IterBuffered | container/templates/cmap/cmap_template.go:192-208 | undisturbed, exactly as many tuples are sent as the channel holds |
| MapWalk.StepKeepsInv | container/templates/cmap/cmap_template.go:68-74 | every step of the walk and of a writer keeps what the walk has locked, counted and sent in line |
| MapWalk.RunKeepsInv | container/templates/cmap/cmap_template.go:68-74 | the invariant holds in every state of every interleaving |
| MapWalk.SentWasBound | container/templates/cmap/cmap_template.go:177-190 | whatever is reported was in the map with that value at some moment of the call |
| MapWalk.StayerIsLocked | container/templates/cmap/cmap_template.go:144-147 | a key that has stayed in the map was there when its shard was locked, for listing and counting walks |
| MapWalk.LockedWasThere | container/templates/cmap/cmap_template.go:144-147 | whatever a walk finds in a shard it locks was in the map at some moment of the call |
| MapWalk.StayerIsSent | container/templates/cmap/cmap_template.go:177-190 | a key that has stayed in the map has been reported once its shard is past |
| MapWalk.WalkGuarantee | container/templates/cmap/cmap_template.go:65-101 | over every interleaving: no key twice, every key present throughout or from a moment on before its shard is reached, and only bindings present at some moment |
| MapWalk.CountBounds | container/templates/cmap/cmap_template.go:141-150 | over every interleaving, Count lies between the number of keys always present and the number of keys ever present |
| MapWalk.QuietCountIsExact | container/templates/cmap/cmap_template.go:141-150 | without writers Count counts exactly the keys |
| MapWalk.QuietWalkIsExact | container/templates/cmap/cmap_template.go:192-208 | without writers the walk reports exactly the map, as many entries as Count counts |
| MapWalk.WalkerNeverStuck | container/templates/cmap/cmap_template.go:180-187 | the walk can always take its next step, whatever the writers have done |
| MapWalk.WalkFinishes | container/templates/cmap/cmap_template.go:180-187 | from everywhere the walk can come to its end by its own steps |
| MapWalk.WriterCanAct | container/templates/cmap/cmap_template.go:58-63 | a write to any shard but the one that is held can happen at any moment, with its full effect on the map, and leaves the walk where it is |
| MapWalk.NextMeans | container/templates/cmap/cmap_template.go:58-76 | every step is the walk's own and changes no shard, or is a write with its full effect; the held shard never changes |
| MapWalk.LateKeyIsSent | container/templates/cmap/cmap_template.go:58-76 | a key stored during the walk into a shard still ahead is reported with its value in some run |
| GlsSpec.StepKeepsInv | gls/gls_slot.go:64-112 | an entry is marked done exactly while its exit is in progress, and then exists |
| GlsSpec.OthersUntouched | gls/gls_slot.go:174-199 | no step changes another goroutine's entry or exit |
| GlsSpec.StepConserves | gls/gls.go:28-42 | each step accounts for every value it stores, replaces, deletes or closes |
| GlsSpec.Conservation | gls/gls_slot.go:64-112 | over every run each stored value ends by exactly one of replacement, deletion and closing, and what is not ended is what the store holds |
| GlsSpec.StoresBalance | gls/gls_slot.go:64-112 | over every run the values stored under a key are those ended there plus the one still held |
| GlsSpec.StepInExit | gls/gls_slot.go:71-82 | during an exit a call, Reset and Unload included, leaves the captured handlers and the entry in place |
| GlsSpec.ExitProgress | gls/gls_slot.go:102-105 | during an exit the captured handlers run from the newest back and nothing else does; the entry survives |
| GlsSpec.WholeExit | gls/gls_slot.go:88-112 | a whole exit runs each of the entry's handlers once, newest first, and removes the entry |
| GlsSpec.ExitRuns | gls/gls_slot.go:88-112 | begin, whatever is called in between, and end as one legal series run each of the entry's handlers once, newest first |
| GlsCalls.RunByCalls | gls/gls.go:27-97 | after every run each goroutine has an entry, holds, waits and exits as its calls say |
| GlsCalls.LastTouchDecides | gls/gls.go:27-42 | what is stored is held until it is stored over, deleted, reset, unloaded or ended; what is deleted or closed stays away until stored again |
| GlsCalls.RegisteredWaits | gls/gls.go:69-74 | a registered handler waits until the goroutine unloads or exits |
| GlsCalls.ClosedByCalls | gls/gls_slot.go:64-112 | a value is in a bulk close exactly if a Reset or Unload outside an exit, or an exit's end, finds it held |
| GlsCalls.ExitRunsHandlers | gls/gls_slot.go:88-112 | over every run, an exit runs exactly the handlers that its goroutine's calls have left waiting, once, newest first; late ones do not run; the entry is gone |
| GlsSpec.RunBalances | gls/gls_slot.go:64-112 | after every run from the empty store the log accounts for every value held, by content and by count, and for every waiting handler |
| GlsClosing.StepMade | gls/gls_slot.go:82-84 | shutting what a step takes out of an entry is what the step's bulk close event tells |
| GlsClosing.MadeOn | gls/gls_slot.go:88-112 | series of steps and the closings that go with them join |
| Gls.Store.constructor | gls/gls_slot.go:45-62 | the store starts empty |
| Gls.Store.Fetch | gls/gls_slot.go:130-152 | a write gets the goroutine's own record, created on first use |
| Gls.Store.Get | gls/gls.go:15-25 | the value in the goroutine's record under the key, or none |
| Gls.Store.IsGlsEnabled | gls/gls.go:54-67 | whether the goroutine has an entry |
| Gls.Store.Set | gls/gls.go:27-31 | the goroutine's record gets the value under the key; the Set step |
| Gls.Store.Del | gls/gls.go:33-42 | the goroutine's record loses the key, nothing without a record; the Del step |
| Gls.Store.AtExit | gls/gls.go:69-74 | the handler is put behind those in the goroutine's record; the AtExit step |
| Gls.Store.ResetEntry | gls/gls_slot.go:64-86 | the Reset or Unload step with its closing loop: just the entry's wrappers are shut, each closer called at most once; an entry whose exit is in progress is left alone and reported |
| Gls.Store.Perform | gls/gls.go:27-97 | any call is its step, shuts just the wrappers that the step's bulk close takes in, and leaves the records of exiting goroutines the same objects |
| GlsClosing.HandlersStayInside | gls/gls_slot.go:102-105 | handlers' own steps neither begin nor end an exit |
| GlsClosing.HandlerInPlace | gls/gls_slot.go:102-105 | each handler's start and then its calls up to the first panic stand right behind those of the newer handlers |
| GlsClosing.AnswersJoin | gls/gls_slot.go:64-112 | requests are answered one after the other, each in the state that those before it leave |
| Gls.Store.SafeRun | gls/gls_slot.go:114-120 | exactly the calls of the handler's body up to its first panic are made, in order, and a panic goes no further |
| Gls.Store.RunNewest | gls/gls_slot.go:103-105 | the newest handler's start and then exactly its calls; the record taken before the loop is still the one in the map |
| Gls.Store.RunHandlers | gls/gls_slot.go:102-105 | all captured handlers, newest first, each start followed by exactly that handler's calls |
| Gls.Store.End | gls/gls_slot.go:107-111 | the record goes and just the wrappers it still holds are shut |
| Gls.Store.ResetAtExit | gls/gls_slot.go:88-112 | an exit is begin, then for each handler in the entry, newest first, its start and exactly its calls, then end; the entry is gone; just the wrappers taken in by the bulk closes of these steps, the final one included, are shut, each closer called once |
| Gls.Store.ServeAll | gls/gls_slot.go:64-112 | every series of calls and exits makes exactly the steps that they take, handlers' calls included, a legal run, and closes what its events tell |
| Gls.Life | gls/gls_slot.go:45-112 | from a new store, for every series of calls and exits: which run it makes, and that each goroutine's entry, values and waiting handlers are what its calls say; each wrapper that starts with a closer has had it called once if a call or exit closes it, else never |
| GlsValue.DataImpl.MakeData | gls/value.go:35-47 | a new wrapper keeps its closer and has not called it |
| GlsValue.DataImpl.Close | gls/value.go:25-33 | the closer is called the first time, and only then |
| GlsValue.CloseAll | gls/gls_slot.go:82-84 | every value's closer is called exactly once, in any order, a wrapper under several keys included |
| CArray.FirstOccurrencesKeep | container/carray/carray_normal_any.go:370-385 | Unique loses no value and adds none |
| CArray.FirstOccurrencesInOrder | container/carray/carray_normal_any.go:370-385 | Unique keeps every value once, in the order of first occurrence |
| CArray.DropRepeat | container/carray/carray_normal_any.go:376-377 | deleting a repeat keeps the inner loop's invariant |
| CArray.UniqueStep | container/carray/carray_normal_any.go:374-382 | one round of the outer loop |
| CArray.PopKeepsAccount | container/carray/carray_normal_any.go:216-218 | popping one element loses nothing and keeps the order of the rest |
| CArray.SwapAllKeepsMultiset | container/carray/carray_normal_any.go:431-433 | Shuffle only rearranges, whatever is drawn |
| CArray.PairsSwapTwice | container/carray/carray_normal_any.go:431-433 | a pair that the drawn permutation exchanges is swapped and swapped back |
| CArray.InvolutionsShuffleNothing | container/carray/carray_normal_any.go:427-435 | every draw that only exchanges pairs leaves the array as it was |
| CArray.ShuffleIsNotFair | container/carray/carray_normal_any.go:427-435 | different draws give the same arrangement if and only if there are two elements or more |
| CArray.SwapAllArranges | container/carray/carray_normal_any.go:431-433 | what a draw does to the positions it does to the elements |
| CArray.SomeNeverComesUp | container/carray/carray_normal_any.go:427-435 | some arrangement of distinct elements comes up for no draw if and only if there are two elements or more |
| CArray.TwoAreNeverShuffled | container/carray/carray_normal_any.go:427-435 | two elements are never shuffled |
| CArray.RoundOfThree | container/carray/carray_normal_any.go:431-433 | what a draw that passes three positions round does to the array |
| CArray.ShuffleCanChange | container/carray/carray_normal_any.go:427-435 | some draw changes an array of distinct elements if and only if there are three or more |
| CArray.Array.CutOut | container/carray/carray_normal_any.go:166 | the tail moves down by one in place |
| CArray.Array.DoRemove | container/carray/carray_normal_any.go:147-168 | the element at the index goes, the others keep their order; nothing for an index out of range |
| CArray.Array.PopRands | container/carray/carray_normal_any.go:205-220 | min(size, length) elements, none lost or made up, the rest in order, for every random choice |
| CArray.Array.Unique | container/carray/carray_normal_any.go:370-385 | terminates and leaves exactly the first occurrences |
| CArray.Array.DropRepeats | container/carray/carray_normal_any.go:375-381 | the inner loop deletes exactly the repeats of one element |
| CArray.Array.Shuffle | container/carray/carray_normal_any.go:427-435 | the swaps of some permutation, hence a rearrangement |
| CArray.Array.Reverse | container/carray/carray_normal_any.go:437-445 | the reversed contents |
| CArray.SwapReversesMore | container/carray/carray_normal_any.go:441-443 | each swap puts one more pair in its final place |
| Sequences.ReverseTwice | container/carray/carray_normal_any.go:437-445 | reversing twice changes nothing |

## Left out

- Concurrent calls on the skip list: `Set` takes the lock twice and the descending queries read the length under a lock of their own; calls here run one after another.
- NaN scores, infinities and the sign of zero: scores are reals, which is all that the comparisons need.
- The body of `randomLevel`, `rand.Intn`, `rand.Perm` and `rand.Uint32`: any value in range, as a parameter or a free choice.
- DH64.PowModP: says what comes out for a base above p; that this is never the power is proved for the first square only (MulModP), as no caller passes such a base.
- The hash function of the map template: the proofs hold for every hash, so a model of this one would add only its loop.
- `IsEmpty` and `Has` of the sharded map: they add only easy members.
- Changing the shard count after a map is built; writers waiting in a lock's queue.
- ShardedMap.ConcurrentMap.IterBuffered: is the call that nobody disturbs; for writers beside it MapWalk.WalkGuarantee says what is sent and MapWalk.CountBounds what the capacity is.
- A walk's order within a shard and between equal states: any order is allowed.
- How the exit of a goroutine is noticed (stack patching, finalizers, labels, assembly) and the reuse of goroutine identities; an exit is one event, delivered once, and the hook succeeds.
- Gls.Store: has one record map instead of 31 slots with locks; the slot is a function of the goroutine, and the same arrangement is proved for the sharded map.
- Gls.Store.ResetAtExit: the heap store runs one exit at a time; exits that overlap are covered by GlsSpec, whose steps interleave freely.
- Stored values of a caller's own type with a Close of its own: the values here are the wrappers of MakeData, and those that a handler stores exist before it runs.
- Closers that call back into the store while they are being closed.
- Sharing of a buffer between arrays and slices handed out; the getters, setters, pops at the ends and ranges of the array; elements that cannot be compared.
- `PopRand` on an empty array, which asks for a random index into nothing and panics.
- Encryption, encoding, hashing and password helpers, queue, stack and the other small containers: thin calls into libraries.
