# ROLEX in Dafny

ROLEX is a key-value store over remote memory. A learned index predicts which
fixed-size leaves can hold a key. Clients read those leaves without locks,
trusting a read only if the versions embedded in its cache lines agree, and
write them under a remote lock word. This project models the parts of ROLEX
with the most intricate behaviour and proves what they promise, for all inputs
and all runs.

- **The learned index** (`Lines`, `Hull`, `Stabbing`, `Fit`, `Segment`, `Plr`,
  `BranchlessSearch`, `Sorting`, `SubModel`, `Index`, `Rolex`, `RolexCache`,
  `Routing`). The streaming line-stabbing algorithm is optimal: it refuses a
  point exactly when no line stabs all intervals. The final line of a segment is
  within epsilon of every point and does not fall. From there the slack adds up
  to the insertion leaf lying in the predicted leaves, for exactly the keys for
  which that is true, while the predicted leaves stay few.
- **The version codec** (`Layout`, `VersionCodec`, `CodecBuffers`,
  `CodecSegments`, `SegmentReads`). Encoding and decoding invert each other, for
  whole nodes and for segments. While entry versions stay the same, a read is
  accepted exactly when its lines come from contents a multiple of 16 writes
  apart; torn reads are rejected as long as at most 16 contents are in play. A
  partial write produces the image of the whole updated node.
- **The leaf store under concurrency** (`LeafSlots`, `LeafStore`, `LeafBuffers`,
  `Protocol`, `ProtocolInvariant`, `ProtocolSteps`, `ProtocolRuns`,
  `ProtocolProgress`, `Lookup`). Sorted leaves with a synonym leaf, a lock word,
  and any number of clients that insert and update, one remote operation at a
  time. In every reachable state locks are exclusive, no assertion has failed,
  and the leaves represent one map, which lookups and range queries answer from.
  An operation that ends has taken effect, and one that is not blocked ends.
- **The hopscotch leaf** (`Hopscotch`, `HopInsert`, `HopSplit`, `HopSearch`).
  Hopping keeps every key in its neighbourhood with its bit set, and finds room
  whenever any sequence of moves does; when it fails, splitting at the chosen
  key always makes room, so the last assertion of the split path is unreachable.
- **Supporting structures**: the two-level allocator under any interleaving of
  threads (`Allocator`, `AllocatorRuns`), the index-linked synonym chains of the
  leaf table (`LeafChain`, `ChainLinks`, `ChainLeaf`, `LeafTable`), key
  arithmetic (`Keys`), and the nested formats of a stored index
  (`Serialization`).

Where ROLEX's own behaviour does not meet a property everywhere, the model keeps
the behaviour and states the exact condition:

- `Routing.HomePredicted`: the assertion on the insertion leaf fails for keys
  past the largest loaded one when the last segment fills whole leaves;
  `Routing.PastTheEnd` is such an index.
- `LeafStore.InsertIsCorrect`: an insert of a new key adds exactly its binding
  unless the leaf and its synonym leaf are both full. Then it writes past the
  synonym leaf if the key is above every key of both, and otherwise loses the
  greatest binding; `LeafStore.FullPairOverruns` and `LeafStore.FullPairLoses`
  are the two cases.
- `VersionCodec.AcceptedExactly`: over writes that leave the entry versions alone,
  a read is accepted if and only if its lines come from contents whose numbers
  agree modulo 16; `VersionCodec.TornAccepted` is an accepted read that is the
  image of none of 17 contents.
- `Allocator.RetrySucceeds`: a request larger than a chunk.
- `Allocator.MallocAnswers`: blocks carved from a chunk are aligned as requested,
  blocks taken from a free list need not be (`Allocator.ReusedUnaligned`).
- `ChainLeaf.HalvesSorted` and `LeafTable.LeafTable.InsertSynonym`: leaves of odd
  size lose their order when split.
- `Keys.NumberOrder`: keys longer than 16 bytes.
- `Serialization.IndexBack`: stored models of 2^31 bytes and more.

## Model

| member | source | states |
|---|---|---|
| `Lines.CrossMultiplied` | include/rolex_libs/rolex/plr.hpp:27-42 | comparing two slopes by integer cross-multiplication, whatever the signs, is comparing a point with a line |
| `Lines.CrossSide` | include/rolex_libs/rolex/plr.hpp:55-59 | the sign of the cross product tells on which side of the line through its neighbours a hull point lies |
| `Hull.LowerTangent` | include/rolex_libs/rolex/plr.hpp:113-127 | the scan that stops at the first worsening slope still finds the hull point whose line to the new point passes above the whole lower hull |
| `Hull.UpperTangent` | include/rolex_libs/rolex/plr.hpp:137-151 | the mirrored scan finds the hull point whose line to the new point passes below the whole upper hull |
| `Hull.PushUpper` | include/rolex_libs/rolex/plr.hpp:129-134 | popping keeps the upper hull convex, and every line below what remains is below what was popped |
| `Hull.PushLower` | include/rolex_libs/rolex/plr.hpp:153-158 | popping keeps the lower hull concave, and every line above what remains is above what was popped |
| `Stabbing.ExtremeSlopes` | include/rolex_libs/rolex/plr.hpp:103-104 | lines through an upper and a later lower end, and the reverse, that stab all intervals have the least and the greatest slope of all that do |
| `Stabbing.Outside` | include/rolex_libs/rolex/plr.hpp:105-111 | an interval outside both extreme lines cannot be stabbed together with the accepted ones by any line |
| `Stabbing.TightenMax` | include/rolex_libs/rolex/plr.hpp:113-127 | the tangent through the new upper end still stabs every accepted interval and is not steeper than before |
| `Stabbing.TightenMin` | include/rolex_libs/rolex/plr.hpp:137-151 | the tangent through the new lower end still stabs every accepted interval and is not flatter than before |
| `Stabbing.DropLower` | include/rolex_libs/rolex/plr.hpp:113-127 | points before the tangent point can be discarded: for the slopes still possible, the rest of the hull bounds every accepted lower end |
| `Stabbing.DropUpper` | include/rolex_libs/rolex/plr.hpp:137-151 | the same for the discarded prefix of the upper hull |
| `Fit.ExtremeLines` | include/rolex_libs/rolex/plr.hpp:103-163 | after every accepted point the rectangle's two lines stab everything accepted and bound the slope of every stabbing line |
| `Fit.FirstTwo` | include/rolex_libs/rolex/plr.hpp:79-101 | the rectangle of the first two points is extreme and its hulls bound all lines |
| `Fit.UpperTightened` | include/rolex_libs/rolex/plr.hpp:113-135 | handling the upper end of a new interval keeps the lower hull, the upper hull and the greatest line right |
| `Fit.LowerTightened` | include/rolex_libs/rolex/plr.hpp:137-159 | handling the lower end completes the invariant for the extended set of intervals |
| `Plr.Clipped` | include/rolex_libs/rolex/plr.hpp:76-80 | the epsilon interval of a point, clipped to the range of positions without overflow, contains the point |
| `Plr.PLR.constructor` | include/rolex_libs/rolex/plr.hpp:64-70 | an empty fit |
| `Plr.PLR.AddPoint` | include/rolex_libs/rolex/plr.hpp:71-163 | a point is refused exactly when no line stabs all accepted intervals and its own; out-of-order points are reported and change nothing; the invariant is kept |
| `Plr.PLR.GetSegment` | include/rolex_libs/rolex/plr.hpp:165-169 | the segment carries the extreme lines of exactly the accepted points |
| `Segment.IntersectionOnBoth` | include/rolex_libs/rolex/plr.hpp:201-218 | the computed intersection lies on both extreme lines |
| `Segment.FinalIsAverage` | include/rolex_libs/rolex/plr.hpp:240-258 | the final line is everywhere the mean of the two extreme lines, or both are the same line |
| `Segment.FinalStabs` | include/rolex_libs/rolex/plr.hpp:240-258 | the final line passes within epsilon of every point of the segment |
| `Segment.FinalRises` | include/rolex_libs/rolex/plr.hpp:240-258 | for increasing positions the final line's slope is not negative, although the least slope may be |
| `BranchlessSearch.BinarySearch` | include/rolex_libs/rolex/rolex_util.hh:18-39 | on every sorted array of two or more elements the search stays in bounds and returns the number of smaller elements |
| `Sorting.SortUnique` | include/RolexCache.h:55-67 | the keys come out strictly increasing, with the same elements, none lost |
| `SubModel.TruncatedPosition` | include/rolex_libs/rolex/submodel.hpp:45-46 | the predicted position is the line truncated: less than one below it, and a whole number of steps from the intercept |
| `SubModel.WindowExact` | include/rolex_libs/rolex/submodel.hpp:10-55 | the window is Epsilon to the left and Epsilon + 2 to the right of the predicted position, cut off only at the ends of the segment |
| `SubModel.WindowHoldsRank` | include/rolex_libs/rolex/submodel.hpp:10-53 | the predicted window contains the rank of every key, stored or not, and past the last key ends at the last position |
| `SubModel.WindowNearRank` | include/rolex_libs/rolex/submodel.hpp:10-55 | the window follows the line: for every key it is at most 2 Epsilon + 3 positions wide and its ends are within 2 Epsilon + 1 of the key's rank, on the left within 2 Epsilon for stored keys |
| `SubModel.TableSizeFits` | include/rolex_libs/rolex/submodel.hpp:86-89 | the leaves set aside for a segment hold all its keys with one whole leaf to spare, and two leaves fewer would not hold them |
| `Index.SegmentFits` | include/rolex_libs/rolex/rolex.hpp:115-157 | training at Epsilon - 1 yields a model within Epsilon - 1 of every rank in its segment |
| `Index.AppendCovers` | include/rolex_libs/rolex/rolex.hpp:223-257 | appending a model keeps the segments contiguous, maximal and in step with both offset vectors |
| `Index.LeavesPerSegment` | include/rolex_libs/rolex/rolex.hpp:223-257 | in a trained index the leaf numbers of two neighbouring segments are exactly as far apart as the first one's keys need, plus one leaf |
| `Rolex.Rolex.constructor` | include/rolex_libs/rolex/rolex.hpp:28-35 | constructing the index from keys trains it |
| `Rolex.Rolex.Train` | include/rolex_libs/rolex/rolex.hpp:115-157 | training leaves segments that cover all keys, each as long as any line allows |
| `Rolex.Rolex.AppendModel` | include/rolex_libs/rolex/rolex.hpp:223-257 | the vectors extended by a model cover the keys up to its end, and the new leaf offset lies as many leaves on as the keys need, plus one |
| `Rolex.Rolex.GetLeafRange` | include/rolex_libs/rolex/rolex.hpp:168-172 | the answer is the leaf range of the segment that holds the key's rank, with that segment's offsets |
| `Routing.RankInSegment` | include/rolex_libs/rolex/rolex.hpp:258-261 | the model chosen for a key is the one whose segment holds the key's lower-bound rank |
| `Routing.HomePredicted` | include/RolexCache.h:88-99 | the assertion on the insertion leaf holds exactly for keys up to the largest loaded one and, if the last segment does not fill whole leaves, for keys past it |
| `Routing.PastTheEnd` | include/RolexCache.h:88-99 | a trained index of two segments whose last one fills whole leaves: for a key past the end the assertion fails |
| `Routing.RangeNear` | include/rolex_libs/rolex/rolex.hpp:168-172 | for every key the leaves read are few, and each end is near the insertion leaf, in terms of Epsilon and the leaf size |
| `Routing.HomeMonotone` | include/RolexCache.h:88-99 | the insertion leaf never decreases as the key grows, across segment borders too |
| `Routing.HomesSpread` | include/RolexCache.h:88-99 | no leaf is the insertion leaf of more loaded keys than it has slots |
| `Routing.RangePredicted` | include/RolexCache.h:102-113 | the leaves predicted for a range contain the insertion leaf of every insertable key in it |
| `RolexCache.RolexCache.constructor` | include/RolexCache.h:55-75 | the cache holds the loaded keys, sorted and without duplicates, and an index trained on them |
| `RolexCache.RolexCache.SearchFromCache` | include/RolexCache.h:77-86 | the leaves returned for a key include the leaf an insert of that key writes, and are few |
| `RolexCache.RolexCache.SearchFromCacheForInsert` | include/RolexCache.h:88-99 | whether the assertion holds, in terms of the key, the largest loaded key and the last capacity; the leaves returned are few |
| `RolexCache.RolexCache.SearchRangeFromCache` | include/RolexCache.h:102-113 | the leaves returned for a range include the insertion leaf of every insertable key in the range |
| `Layout.Layout.Governed` | include/VersionManager.h:33-89 | the version that a line carries is the one of the metadata or of an entry of the node |
| `VersionCodec.StrippedImage` | include/VersionManager.h:33-89 | decoding the image of a node gives back that node, for every layout |
| `VersionCodec.ImageAccepted` | include/VersionManager.h:33-89 | an untorn image is accepted exactly if its node versions are uniform |
| `VersionCodec.AcceptedIsUntorn` | include/VersionManager.h:33-89 | if every line of a read comes from one of at most 16 successive contents, an accepted read has all lines from one of them and returns it |
| `VersionCodec.SameVersionsAccepted` | include/VersionManager.h:33-89 | any mixture of contents whose version bytes agree is accepted |
| `VersionCodec.VersionsRecur` | include/VersionManager.h:65-73 | two contents of a history have the same node version exactly if they are a multiple of 16 writes apart |
| `VersionCodec.AcceptedExactly` | include/VersionManager.h:33-89 | over a history of any length in which no entry version changes, a read assembled line by line is accepted if and only if the contents its lines come from are a multiple of 16 writes apart |
| `VersionCodec.TornAccepted` | include/VersionManager.h:33-89 | for every layout with data on both sides of a line border, 17 contents and an accepted read that is the image of none of them: the bound of 16 is tight |
| `CodecBuffers.BumpVersions` | include/VersionManager.h:65-73 | every version field of the node gets the successor of the first entry's node version, and nothing else changes |
| `CodecBuffers.EncodeNode` | include/VersionManager.h:65-89 | the buffer written is the image of the node with stepped versions, and the decoder accepts it |
| `CodecBuffers.DecodeNode` | include/VersionManager.h:33-60 | the line-by-line decoder accepts exactly the consistent images and then returns the stripped node |
| `CodecSegments.OffsetInfoCorrect` | include/VersionManager.h:93-126 | raw offset and length are where the entries lie in the encoded node, and the first offset is where the next line starts |
| `CodecSegments.SegmentWrite` | src/Rolex.cpp:1526-1572 | writing the encoded segment at its raw offset gives the image of the whole updated node; a segment up to the last entry ends where the image ends |
| `CodecSegments.BumpEntries` | include/VersionManager.h:146-155 | for distinct hopped entries, exactly the entry versions of those inside the segment are stepped, and no other byte changes |
| `CodecSegments.BumpHoppedAt` | include/VersionManager.h:146-155 | byte by byte what the loop over distinct hopped entries leaves: the version byte of a hopped entry stepped once, every other byte as it was |
| `CodecSegments.EncodeSegment` | include/VersionManager.h:146-163 | the hopped entries are stepped once each, and the bytes produced, written at the raw offset, turn the image of any node into the image of that node with the new entries |
| `SegmentReads.SegmentBack` | include/VersionManager.h:185-206 | decoding an encoded segment gives back its entries, and it is accepted exactly if their node versions agree |
| `SegmentReads.DecodeSegment` | include/VersionManager.h:185-206 | the line-by-line segment decoder accepts exactly the consistent segments, returns their entries and the node version |
| `LeafStore.ShiftedOrdered` | src/Rolex.cpp:346-385 | shifting a fresh key in at its place keeps the leaf strictly sorted with empty records last |
| `LeafStore.SynonymStored` | src/Rolex.cpp:409-448 | a synonym insert reports a present key, writes out of bounds exactly if the leaf is full of smaller keys, and otherwise keeps the order and gains exactly the new binding if and only if there is a free record |
| `LeafStore.OverflowIsFresh` | src/Rolex.cpp:335-385 | the record pushed out of a full leaf is never in the synonym leaf already, so that branch is unreachable |
| `LeafStore.InsertIsCorrect` | src/Rolex.cpp:335-385 | an insert reports exactly the keys present, writes out of bounds exactly if both leaves are full of smaller keys, and otherwise keeps both leaves sorted and the synonym leaf above a full leaf; it adds exactly one binding if and only if the key is new and not both leaves are full |
| `LeafStore.RoomIs` | src/Rolex.cpp:335-385 | an insert finds room exactly if the key is present or one of the two leaves has a free record |
| `LeafStore.InsertMoves` | src/Rolex.cpp:335-397 | keys stay in a synonym leaf, but for its last one when there is no room, and an insert that does not write a leaf leaves it as it was |
| `LeafStore.WritesChanged` | src/Rolex.cpp:335-397 | an insert writes the leaf exactly if its records or its pointer change, and the synonym leaf exactly if its records change |
| `LeafStore.PushedOut` | src/Rolex.cpp:335-385 | a new key below the last one of a full leaf sends that last one to the synonym leaf, and both leaves are written |
| `LeafStore.NoRoomLoses` | src/Rolex.cpp:422-445 | without room some earlier binding is lost |
| `LeafStore.FullPairLoses` | src/Rolex.cpp:422-445 | a full pair in which the insert of a new key loses the greatest binding |
| `LeafStore.FullPairOverruns` | src/Rolex.cpp:422-445 | a full pair in which the insert of a new key writes past the synonym leaf |
| `LeafBuffers.ShiftIn` | src/Rolex.cpp:441-444 | the backward loop shifts the records up by one in place |
| `LeafBuffers.InsertIntoSynonym` | src/Rolex.cpp:409-448 | the in-place synonym insert computes the specified leaf, creates one, or ends where it would write out of bounds, exactly as specified |
| `LeafBuffers.InsertLocally` | src/Rolex.cpp:335-385 | the in-place insert computes the specified pair of leaves and which of them have to be written, or ends as specified when the key is present or a write would be out of bounds |
| `LeafBuffers.UpdateLocally` | src/Rolex.cpp:718-728 | the update rewrites the one record with the key and reports whether there was one |
| `ProtocolInvariant.OtherClient` | src/Rolex.cpp:97-140 | a client that does not hold the leaf's lock is not disturbed by a step on that leaf |
| `ProtocolSteps.InsertStep` | src/Rolex.cpp:188-397 | deciding an insert keeps the invariant, whatever the other clients are doing |
| `ProtocolSteps.UpdateLeafStep` | src/Rolex.cpp:658-737 | deciding an update in the leaf keeps the invariant |
| `ProtocolSteps.UpdateSynonymStep` | src/Rolex.cpp:658-737 | a key sought in the synonym leaf under the lock is there, and deciding its update keeps the invariant |
| `ProtocolSteps.FollowStep` | src/Rolex.cpp:730-736 | a key that left the leaf has a synonym pointer to follow: neither assertion of the re-read fails |
| `ProtocolSteps.WriteStep` | src/Rolex.cpp:512-562 | each separate write of a batch keeps the invariant, though readers can see memory in between |
| `ProtocolSteps.UnlockStep` | src/Rolex.cpp:123-140 | the unlocking write restores the word found free, and memory then shows exactly what the leaf stands for |
| `ProtocolRuns.StepKeepsInvariant` | src/Rolex.cpp:97-397 | every remote step of every client keeps the invariant |
| `ProtocolRuns.RunInvariant` | src/Rolex.cpp:142-397 | the invariant holds in every state of every run |
| `ProtocolRuns.RunSafe` | src/Rolex.cpp:97-140 | in every state of every run a lock is taken exactly when one client holds it, no two hold the same, and no assertion has failed |
| `ProtocolRuns.StepOnContents` | src/Rolex.cpp:142-397 | the represented map changes only where an insert or update is decided, and there as the operation says: an insert of a present key changes nothing |
| `ProtocolRuns.StepMovesKeys` | src/Rolex.cpp:335-397 | a set synonym pointer never changes, keys never leave a synonym leaf, and a key that leaves a leaf is in what its synonym leaf stands for |
| `ProtocolProgress.InsertTakesEffect` | src/Rolex.cpp:142-397 | in every run, a client that started an insert of k with v and is idle again decided it in between; k is stored from then on, and with v if it was not stored before |
| `ProtocolProgress.UpdateTakesEffect` | src/Rolex.cpp:658-737 | in every run, a client that had found the key of its update and is idle again changed the stored value in between |
| `ProtocolProgress.SearchFinds` | src/Rolex.cpp:921-968 | the search for the key of an update finds a stored key in its unlocked home leaf, or goes on to the synonym leaf that has it |
| `ProtocolProgress.SynonymFinds` | src/Rolex.cpp:921-968 | in the synonym leaf the key is found exactly if it is there |
| `ProtocolProgress.Progress` | src/Rolex.cpp:142-397 | a client that does not wait for a lock and has room can take its next step, which brings it nearer to its end and leaves it unblocked |
| `ProtocolProgress.SoloFinishes` | src/Rolex.cpp:97-397 | from any reachable state such a client, left to itself, is idle after a bounded number of steps |
| `ProtocolProgress.SoloInsert` | src/Rolex.cpp:142-397 | from any reachable state an insert with the leaf unlocked and room ends within eight steps of its client, and the store then holds exactly the contents before and the new binding |
| `ProtocolProgress.SoloUpdate` | src/Rolex.cpp:628-737 | from any reachable state an update of a stored key whose leaf is unlocked ends within eight steps of its client with exactly that value changed |
| `ProtocolProgress.MovedKeyHides` | src/Rolex.cpp:512-562 | a key pushed out of a full leaf is in neither leaf between the two writes, though it is stored throughout |
| `Lookup.CacheStays` | src/Rolex.cpp:866-905 | a cached synonym address never goes stale, whatever any client does |
| `Lookup.FetchNodes` | src/Rolex.cpp:866-920 | what is fetched is exactly the predicted leaves and their synonym leaves, whatever part of the addresses was cached |
| `Lookup.SeenAtHome` | src/Rolex.cpp:921-968 | in any reachable state a key seen anywhere is in its home leaf or that leaf's synonym leaf |
| `Lookup.SeenIsStored` | src/Rolex.cpp:921-968 | a record seen in an unlocked leaf is a binding of the store |
| `Lookup.StoredIsSeen` | src/Rolex.cpp:921-968 | a binding of the store is seen in its home leaf or synonym leaf while that leaf is unlocked |
| `Lookup.QuietIsUnlocked` | src/Rolex.cpp:97-140 | when every client is idle, every lock is free |
| `Lookup.RangeInStore` | include/rolex_libs/rolex/rolex.hpp:168-172 | only leaves that exist are predicted |
| `Lookup.Search` | src/Rolex.cpp:827-976 | in any reachable state in which the key's home leaf is unlocked, the lookup finds the key exactly if the store holds it, with its value |
| `Lookup.RangeQuery` | src/Rolex.cpp:982-1033 | with no lock taken, the result is exactly the stored bindings with keys in [from, to) |
| `Hopscotch.MovedGood` | src/Rolex.cpp:1106-1112 | moving a key within its neighbourhood and moving its bit keeps the leaf well-formed and its bindings the same |
| `Hopscotch.ReachesPrefix` | src/Rolex.cpp:1211-1249 | the slots from which hopping succeeds form a prefix starting at the key's hash slot |
| `Hopscotch.HopIsMove` | src/Rolex.cpp:1096-1106 | the test on logical indices accepts a hop exactly if the key stays within its neighbourhood, measured on slots |
| `Hopscotch.CanInsertIs` | src/Rolex.cpp:1064-1115 | trying the farthest candidate first is complete: hopping succeeds exactly if some sequence of legal moves brings the first empty slot into the neighbourhood; otherwise no slot is empty or a hole is reached that no key can move into |
| `HopInsert.OneHop` | src/Rolex.cpp:1096-1112 | each hop goes to a slot strictly nearer the key's hash slot, with both bit operations meeting their assertions |
| `HopInsert.HopTarget` | src/Rolex.cpp:1096-1114 | the scan picks the first candidate that may hop, and tells whether the assertion on the hash index held for every candidate it looked at |
| `HopInsert.CandidatesBelow` | src/Rolex.cpp:1104-1104 | while hopping, every candidate of a scan has its hash index at or below it, so that assertion holds for the whole scan |
| `HopInsert.HopDown` | src/Rolex.cpp:1083-1114 | the hopping loop terminates and succeeds exactly if the empty slot reaches the neighbourhood |
| `HopInsert.Insert` | src/Rolex.cpp:1064-1115 | an insert of a fresh key succeeds exactly if some sequence of legal moves makes room; then the leaf stays well-formed, gains just that binding, everything changed lies in the written segment up to the first empty slot, and the hopped slots are exactly those with another key |
| `HopInsert.InSegmentIs` | src/Rolex.cpp:1084-1092 | the written segment is exactly the slots from the hash slot round to the empty one |
| `HopSplit.Simulate` | src/Rolex.cpp:1223-1243 | the simulation on keys alone decides whether hopping from a slot would succeed |
| `HopSplit.CriticalKeys` | src/Rolex.cpp:1217-1244 | the keys collected are exactly those whose slot, freed, would let the insert succeed |
| `HopSplit.CriticalExactly` | src/Rolex.cpp:1217-1244 | a slot before the first empty one is critical exactly if emptying it alone lets the insert succeed |
| `HopSplit.GetSplitKey` | src/Rolex.cpp:1211-1249 | the split key is the median of the critical keys and the pending key |
| `HopSplit.FreedSlotSuffices` | src/Rolex.cpp:1117-1292 | removing keys so that one critical slot is free makes the failed insert possible |
| `HopSplit.PendingFits` | src/Rolex.cpp:1117-1292 | after the split the pending key can be inserted on whichever side it belongs |
| `HopSplit.MoveUpper` | src/Rolex.cpp:1133-1152 | the keys from the split key on move to the same slots of the new leaf, and both leaves are well-formed |
| `HopSplit.InsertLocally` | src/Rolex.cpp:1251-1292 | where an insert is possible it is carried out: the final assertion is unreachable |
| `HopSplit.Split` | src/Rolex.cpp:1117-1209 | a split after a failed insert parts the keys at the median of the critical keys and the pending key, loses no binding and gains the pending one |
| `HopSearch.SearchNode` | src/Rolex.cpp:924-955 | whatever was read, the key is found exactly if its neighbourhood shows it, and a miss is consistent exactly if the bitmap is that of the records; a well-formed leaf never asks for a re-read and the key is found exactly if it is there |
| `Allocator.RoundUp` | include/Common.h:50-50 | the result is the one multiple of the alignment within one alignment of the address |
| `Allocator.RetrySucceeds` | include/DSM.h:233-257 | the retry on a new chunk succeeds exactly if the aligned request fits a chunk; otherwise the address returned reaches past the chunk |
| `Allocator.LocalAllocator.Alloc` | include/LocalAllocator.h:22-48 | the scan of the free list answers as specified; a block from the chunk is aligned as requested, less than one alignment past the next byte, and inside the chunk |
| `Allocator.MallocAnswers` | include/LocalAllocator.h:22-48 | the answer is the first aligned stretch of the chunk's rest if there is one, else the first free block that is large enough, and a chunk is asked for exactly if there is neither |
| `Allocator.ReusedUnaligned` | include/LocalAllocator.h:38-48 | a request answered from the free list that does not get the alignment it asked for |
| `Allocator.LocalAllocator.SetChunk` | include/LocalAllocator.h:50-52 | the new chunk replaces the old one and the free list stays |
| `Allocator.LocalAllocator.Free` | include/LocalAllocator.h:54-56 | the block is appended to the free list |
| `Allocator.GlobalAllocator.constructor` | include/GlobalAllocator.h:18-28 | all chunks but the first are free |
| `Allocator.GlobalAllocator.AllocChunk` | include/GlobalAllocator.h:32-53 | chunks are handed out in order, each once; failure means the space has run out |
| `AllocatorRuns.RestIsNew` | include/LocalAllocator.h:25-36 | bytes bumped from the rest of a chunk belong to no block ever carved and to no other thread's chunk |
| `AllocatorRuns.ChunkIsNew` | src/Directory.cpp:17-24 | a chunk about to be handed out overlaps nothing handed out by any directory |
| `AllocatorRuns.GivenStep` | include/LocalAllocator.h:22-48 | a block answered from the chunk or the free list was not live |
| `AllocatorRuns.StepKeepsInvariant` | include/DSM.h:233-261 | every request, chunk grant, retry and free of every thread keeps all extents apart |
| `AllocatorRuns.LiveBlocksApart` | include/DSM.h:233-261 | in every state of every run live blocks are pairwise disjoint and lie in the synonym region |
| `AllocatorRuns.BlocksAccounted` | include/LocalAllocator.h:38-56 | every block ever carved is live or in exactly one free list |
| `AllocatorRuns.BlocksAligned` | include/DSM.h:233-257 | every block ever carved in a run was requested by a thread, with that size, on that node, and starts at a multiple of the alignment requested |
| `AllocatorRuns.ChunksGranted` | include/GlobalAllocator.h:32-53 | no chunk is skipped: each one below the tail of a directory was handed to some thread |
| `AllocatorRuns.RequestAnswered` | include/DSM.h:233-257 | from any reachable state a request that fits a chunk is answered within three steps with a block that was not live, unless a chunk is needed and none is left |
| `AllocatorRuns.FreedIsListed` | include/DSM.h:259-261 | a freed block is in the freeing thread's list of the first directory of its node, with its size, and in no other list |
| `AllocatorRuns.RegionDivided` | src/Directory.cpp:17-24 | the directories divide the synonym region evenly, without gaps, leaving over fewer bytes than there are directories, and each directory less than a chunk |
| `AllocatorRuns.LeavesApart` | src/Rolex.cpp:85-91 | different leaf numbers name disjoint memory |
| `AllocatorRuns.LeavesDense` | src/Rolex.cpp:85-91 | leaves go round the memory nodes, start at multiples of 8 from the region's start, and waste fewer than 8 bytes between neighbours |
| `AllocatorRuns.LeafUntouched` | src/Rolex.cpp:85-95 | a leaf that passes the address assertion, lock word included, overlaps no live block in any reachable state |
| `LeafChain.FlatSorted` | include/rolex_libs/rolex/leaf_table.hpp:322-387 | the leaves of a chain, concatenated from the main leaf, are strictly sorted |
| `LeafChain.TargetDecides` | include/rolex_libs/rolex/leaf_table.hpp:337-353 | the leaf picked from the back is the only one that can hold the key |
| `LeafChain.HalvedOk` | include/rolex_libs/rolex/leaf_table.hpp:363-380 | splitting a full leaf in half keeps the chain in order |
| `LeafChain.InsertedOk` | include/rolex_libs/rolex/leaf_table.hpp:322-387 | an insert of a fresh key keeps the chain in order and adds exactly its record, through a split too |
| `LeafChain.ReboundOk` | include/rolex_libs/rolex/leaf_table.hpp:261-285 | an update changes the value of that key and nothing else |
| `ChainLinks.EmplacedChained` | include/rolex_libs/rolex/leaf_table.hpp:117-137 | linking a new entry behind another keeps all chains finite and without a common leaf, and puts the new leaf right behind |
| `ChainLinks.EntriesApart` | include/rolex_libs/rolex/leaf_table.hpp:117-137 | no entry occurs twice in a chain or in two chains |
| `ChainLeaf.Leaf.Search` | include/rolex_libs/rolex/leaf.hpp:47-56 | a key is found exactly if the leaf has it, with its value |
| `ChainLeaf.Leaf.Update` | include/rolex_libs/rolex/leaf.hpp:67-76 | the record of the key, if any, gets the value |
| `ChainLeaf.Leaf.InsertNotFull` | include/rolex_libs/rolex/leaf.hpp:104-118 | a new key goes to its place; a present key or a full leaf changes nothing |
| `ChainLeaf.HalvesSorted` | include/rolex_libs/rolex/leaf_table.hpp:373-379 | of a full leaf the upper half is always sorted, the lower exactly when the leaf size is even or 1 |
| `ChainLeaf.HalveLeaf` | include/rolex_libs/rolex/leaf_table.hpp:373-379 | for any leaf size the two leaves hold the keys the split writes; for even sizes they are the lower and the upper half of the records |
| `ChainLeaf.HalveAndInsert` | include/rolex_libs/rolex/leaf_table.hpp:363-380 | for even sizes the new record goes to its place in the half it belongs to; for odd sizes the two leaves overlap, whichever of them took the key |
| `LeafTable.LeafTable.constructor` | include/rolex_libs/rolex/leaf_table.hpp:90-92 | a table without slots |
| `LeafTable.LeafTable.TrainEmplaceBack` | include/rolex_libs/rolex/leaf_table.hpp:107-115 | a new slot with an empty chain, the other slots unchanged |
| `LeafTable.LeafTable.SynonymEmplaceBack` | include/rolex_libs/rolex/leaf_table.hpp:117-137 | the in-place link updates perform the specified emplacement, or report a full table |
| `LeafTable.LeafTable.Search` | include/rolex_libs/rolex/leaf_table.hpp:144-176 | a key is found exactly if some leaf of the slot's chain has it, with its value |
| `LeafTable.LeafTable.UpdateSynonym` | include/rolex_libs/rolex/leaf_table.hpp:261-285 | the slot's map changes at that key only, the result tells whether it was there, and no other slot changes |
| `LeafTable.LeafTable.InsertSynonym` | include/rolex_libs/rolex/leaf_table.hpp:322-387 | it succeeds exactly for a new key while synonym entries last; a leaf and an entry are used up exactly if the leaf was full; the table stays in order unless that leaf has odd size; then the slot gains that binding, chains stay acyclic and disjoint, and no other slot changes |
| `Keys.OrderIsNumeric` | include/Key.h:146-151 | for keys of one length the byte order is the order of the numbers they spell |
| `Keys.KeyToInt128` | include/Key.h:146-151 | the number of the first 16 bytes, without overflow |
| `Keys.NumberOrder` | include/Key.h:146-151 | the index's numbers order all keys of a length as the bytes do exactly when the length is at most 16 |
| `Keys.Plus` | include/Key.h:78-93 | adding a byte with the carry loop is addition modulo 256 to the key length |
| `Keys.Minus` | include/Key.h:95-111 | subtracting a byte with the borrow loop is subtraction modulo 256 to the key length |
| `Keys.AddOne` | include/Key.h:65-76 | adding one in place is addition modulo 256 to the key length |
| `Keys.Undone` | include/Key.h:78-111 | adding and subtracting a byte undo each other |
| `Serialization.TableBack` | include/rolex_libs/rolex/leaf_table.hpp:455-482 | reading back a written leaf table restores the table and the synonym table |
| `Serialization.SubModelBack` | include/rolex_libs/rolex/submodel.hpp:111-143 | reading back a written model restores slope, intercept, capacity and leaf table |
| `Serialization.IndexBack` | include/rolex_libs/rolex/rolex.hpp:44-82 | reading back a written index restores all segments, any number of them, exactly if the models take less than 2^31 bytes |
| `Serialization.TableLayout` | include/rolex_libs/rolex/leaf_table.hpp:473-482 | every byte of a stored table: the number of slots, the slots, the synonym entries, little-endian |
| `Serialization.SubModelLayout` | include/rolex_libs/rolex/submodel.hpp:111-143 | every byte of a stored model: slope, intercept, capacity, length of the table, table |
| `Serialization.IndexLayout` | include/rolex_libs/rolex/rolex.hpp:64-82 | where a stored index has its total length, and each model its key, its length and its bytes |
| `Serialization.SerializeTable` | include/rolex_libs/rolex/leaf_table.hpp:473-482 | the appending loops write the specified format |
| `Serialization.DeserializeTable` | include/rolex_libs/rolex/leaf_table.hpp:455-471 | the reading loops parse the specified format |
| `Serialization.SerializeIndex` | include/rolex_libs/rolex/rolex.hpp:64-82 | the appending loop writes the specified format, the total length first |
| `Serialization.DeserializeIndex` | include/rolex_libs/rolex/rolex.hpp:44-62 | the reading loop parses the specified format until the end of the string |

## Left out

- Floating-point rounding in `predict` and in the segment getters: lines are exact reals, and positions below zero are clamped to 0 before the unsigned cast.
- Machine widths of slopes and positions: cross products are unbounded integers; only the clipping at the range of positions is modelled.
- An index of a single segment: the branchless search is undefined for one element, so `RolexCache` lookups and `Lookup` ask for two segments.
- The exit on duplicate keys during training: keys are sorted and deduplicated before.
- Reading a malformed index: where the program aborts or would read past the string, `Serialization` answers that there is no index.
- Header decoding and single-entry writes of the version codec: the same line arithmetic as whole-node decoding and segment encoding.
- Cache lines: the unit that is read and written atomically is a 64-byte line of the node's image. Leaves lie at a stride rounded up to 8 bytes (src/Rolex.cpp:85-91), so such a line can straddle two cache lines of memory.
- Torn reads and the order of a batch in `Protocol`: a node is read and written in one step, and the writes of a batch reach memory in the order posted. `DSM::write_batches_sync` (src/DSM.cpp:355-371) groups a batch by memory node, so with several memory nodes the unlock can arrive before the write of a synonym leaf on another node.
- A restored index in use: the deserializing constructor (include/rolex_libs/rolex/rolex.hpp:44-62) leaves both offset vectors empty, so an index read back cannot answer `get_leaf_range`.
- Linearizability of lock-free readers across a leaf and its synonym leaf: the two are written separately, so lookups are exact for a snapshot in which the home leaf is unlocked; `ProtocolProgress.MovedKeyHides` says when a stored key is in neither.
- Protocol.Enabled: a run stops where an insert of a new key finds the leaf and its synonym leaf full. `LeafStore.InsertIsCorrect` says which of the two outcomes the insert then has, a lost binding or a write past the synonym leaf; what the program does after either is not modelled.
- HopInsert.Insert: the search for an empty slot covers the whole leaf, as it does without vacancy-aware locks; what a failed attempt leaves in the buffer is not stated, because the program works on a copy.
- Lock acquisition as a spin loop, its deadlock counter, coroutines and retries: a failed compare-and-swap is a step that changes nothing.
- The choice of memory node and directory in `DSM::alloc`: any choice is allowed in `AllocatorRuns`; requests of size 0 and alignments above a chunk are excluded, and running out of chunks ends a run.
- The race between slots on the counter of free synonym entries, the locks of the leaf table, routing between slots, range scans and removal in the leaf table.
- LeafTable.InsertSynonym: exhaustion of the leaf pool is an assertion in the program and is not modelled; what a table out of order answers afterwards is not stated.
- Vacancy-aware locks, replicated metadata, speculative reads, the local lock table, variable-length values: build variants that are off or only hints.
- RDMA verbs, memory registration, bootstrap over memcached, statistics and benchmarks: remote reads, writes and compare-and-swap are abstract memory steps.
