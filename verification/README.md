# pdwfs in Dafny

pdwfs intercepts the I/O of a simulation and keeps its files in a ring of Redis instances. A file is cut into stripes;
each stripe is a Redis string on the instance that consistent hashing picks for its key; each instance also keeps, per
file, the set of stripe ids it holds. This project models that data store and what stands around it, and proves what the
design promises, or exactly when the code keeps the promise.

Modules, in the order in which they build on each other:

- `Keys`, `Redis`: the printed keys, and the Redis commands as functions on one instance.
- `Striping`, `Interleaving`, `Store`: cutting a range into pieces; one goroutine's commands (a MULTI/EXEC block or a
  script) as one atomic step; the proof that the steps of a call may run in any order.
- `Content`, `Calls`, `Resize`, `Reads`, `Files`: a file as a partial map from positions to bytes, the store invariant,
  what each call does to every byte, and the refinement of plain byte sequences over whole runs.
- `DataStores`, `MemFiles`: the data store and file handle objects with their loops, against those specifications. The
  scheduler of `Goroutines` is arbitrary.
- `HashRing`, `Wiring`: consistent hashing, the ring of clients, and the proof that it gives the store what it assumes.
- `Meta`, `Tree`, `Namespace`: inode metadata, the directory tree and its invariant, and the file system object with its
  client-side inode cache.
- `IdleLists`, `Pool`, `PoolOrder`, `PoolObjects`: the intrusive idle list; the connection pool as a state machine whose
  steps are the stretches of code between taking and releasing the mutex; which connection is kept, closed and borrowed,
  by the time of its last return; the pool object whose code performs those steps.
- `Resp`, `Session`: the wire format printed and parsed back; pipelining, the pending counter, and the state in which a
  connection returns to the pool.
- `PoolSessions`: pool and connections together: what borrowers send, and the state of every idle connection over runs.
- `AbsPath`: the C path normaliser over its growing buffer.
- `Transfer`, `MainLoops`: pv's transfer buffer, what one call moves, and the main loop with its quota arithmetic, in byte
  mode.

`Inv(cfg, w, strict)` is the invariant of the store. With `strict` it is the invariant of runs of calls of at most 100
stripes; without it, stripe 0 may be listed though it is empty, which is what longer calls can leave behind.

## Where the code departs from its intent

Each of these is modelled as the code has it, with the exact condition under which the intent is met.

- `stripeLayout` grows its slice with `make` of a length instead of a capacity (`src/go/redisfs/store.go:76-81`). Beyond
  100 stripes the layout holds zero-valued entries. Writing is not affected (`Calls.ExtraSlotsSilent`), except that
  stripe 0 may be listed though empty (`Files.StrictExactly` says when, `DataStores.LongWriteListsNothing` is an input);
  the count of `ReadAt` is right if and only if the call spans at most 100 stripes
  or the file has no first byte (`DataStores.ReadTotalExact`; an input that fails: `DataStores.ReadOvercounts`).
- Writing behind the end of a file leaves a hole unless the write starts in the stripe of the end: `Files.WriteExact`,
  and `Files.WriteLeavesHole` for an input that fails.
- Growing puts the filler byte of the old last stripe at `S-curLen-1` instead of `S-1`
  (`src/go/redisfs/store.go:284-288`). `Resize.GrowExact` proves that the file is zero-extended if and only if the size
  is a multiple of the stripe size, or old and new last stripe are the same, the filler stays within the new size, and
  it does not hit a byte other than zero. `Resize.GrowSize` says when at least the size is right, and
  `Files.GrowthOverwrites` is an input that fails.
- Removing a directory drops only the directory from the inode cache (`src/go/redisfs/fs.go:134-137`):
  `Namespace.RedisFS.Remove` proves that the cache stays right if and only if nothing else below it was cached, and
  `Namespace.StaleEntry` is a run after which it is wrong. Removing the mount point itself fails on its missing parent.
- EXEC or DISCARD after WATCH without MULTI clears the client's watch bit while the server still watches
  (`src/go/redigo/redis/commandinfo.go:28-42`). `PoolSessions.IdleExactly` gives the exact condition over runs of the
  pool, `PoolSessions.WatchedWhileIdle` a run that fails, and `PoolSessions.IdleInPdwfs` says that pdwfs never does this.
- pv forgets the bytes of the current call when a later read of it fails (`tools/pv/src/pv/transfer.c:49-50`):
  `Transfer.KeptExactly` for the exact condition, `Transfer.ForgottenByte` for an input that fails.
- pv takes a write call that returns 0 for the end of the output, also when the only write() was interrupted or refused
  with EAGAIN (`tools/pv/src/pv/transfer.c:122-129`, `tools/pv/src/pv/transfer.c:503-508`). `MainLoops.MainLoop.Loop`
  says when a run that ends has output everything, and `Transfer.Stranded` is one that has not.

## Model

| member | source | states |
|---|---|---|
| Keys.StripeKeyInjective | src/go/redisfs/store.go:30-33 | two stripe keys are equal only for the same file and the same stripe, for any names, colons included |
| Keys.StripesKeyInjective | src/go/redisfs/store.go:99 | two files never share their set of stripe ids |
| Keys.MetaKeyInjective | src/go/redisfs/inodes.go:45-52 | the mode and children keys of two paths differ |
| Keys.KeyFamiliesDisjoint | src/go/redisfs/store.go:30-33 | stripe, stripe-list, mode and children keys never coincide, whatever the names |
| Keys.AtoiItoa | src/go/redisfs/store.go:208 | the id read back from a set member is the id that was printed into it |
| Redis.Overwrite | src/go/redisfs/store.go:104 | SETRANGE: exact length, pads with zero bytes up to the offset, keeps what it does not cover, and with an empty value changes nothing |
| Redis.Range | src/go/redisfs/store.go:132 | GETRANGE: both ends included and clamped; 0..-1 is the whole value, a range beyond the end is empty |
| Interleaving.MoveToFront | src/go/redisfs/store.go:166-173 | a step that commutes with those before it may be run first |
| Interleaving.AnyOrder | src/go/redisfs/store.go:166-173 | if every two steps of a list commute, every permutation of it ends in the same state |
| Striping.DivModIs | src/go/redisfs/store.go:35-39 | the quotient and remainder used throughout are those of integer division by the stripe size |
| Striping.Split | src/go/redisfs/store.go:35-39 | every position is start of its stripe plus an offset below the stripe size |
| Striping.Join | src/go/redisfs/store.go:35-39 | and the stripe and offset of such a sum are those it was built from |
| Striping.NextPiece | src/go/redisfs/store.go:83-88 | a piece stays in one stripe, and the next piece starts the next stripe at offset 0 |
| Striping.LayoutPieces | src/go/redisfs/store.go:68-91 | every piece of a layout is non-empty, lies inside its stripe and inside the data, and stripe ids strictly increase |
| Store.ApplyEffect | src/go/redisfs/store.go:95-117 | one stripe step gives exactly the new stripe string and listing of its own stripe, and leaves all other stripes and listings alone |
| Store.ApplyFrame | src/go/redisfs/store.go:95-117 | on any key but the two it names, and on any other instance, a step changes nothing |
| Store.ApplyTyped | src/go/redisfs/store.go:95-117 | no step ever leaves a string where a set is expected or an empty set behind |
| Store.StepsCommute | src/go/redisfs/store.go:166-173 | two independent stripe steps commute on the whole store, also when they meet on one instance and in one stripe-id set |
| Store.AnySchedule | src/go/redisfs/store.go:166-173 | every order of the pairwise independent steps of a call ends in the same store |
| Content.ApplyKeepsInv | src/go/redisfs/store.go:95-117 | each atomic step keeps: stripes no longer than the stripe size, non-empty stripes listed by their owner, listed ids real |
| Content.RunKeeps | src/go/redisfs/store.go:166-196 | so does every run of steps, and it touches only keys of its own file |
| Content.OthersUnchanged | src/go/redisfs/store.go:166-196 | such a run leaves the bytes and listings of all other files and all inode metadata as they were |
| Content.LastStripeMeans | src/go/redisfs/store.go:199-229 | the largest listed id is the largest stripe that can hold a byte; no stripe above it has one |
| Content.SizeMeans | src/go/redisfs/store.go:232-241 | GetSize is one more than the largest position that holds a byte, 0 if there is none, for files with holes too |
| Calls.ByteAfterWrite | src/go/redisfs/store.go:95-107 | after one stripe write a byte is the data where it goes, else the old byte, else a zero between the old end of the stripe and the write |
| Calls.OverlayTwice | src/go/redisfs/store.go:68-91 | one piece laid over another, in the order of the layout, is one overlay of the data covered so far |
| Calls.WriteRun | src/go/redisfs/store.go:68-107 | the pieces from any position on overlay exactly the rest of the data |
| Calls.WriteAtBytes | src/go/redisfs/store.go:166-173 | WriteAt, for any offset, length and store: every position holds the data, its old byte, or the zero that pads the first touched stripe |
| Calls.WriteAtKeeps | src/go/redisfs/store.go:166-173 | WriteAt keeps the store invariant and changes only its own file |
| Calls.ExtraSlotsSilent | src/go/redisfs/store.go:76-81 | the zero-valued entries of a layout that had to grow change no byte of any file |
| Calls.RemoveClears | src/go/redisfs/store.go:188-196 | Remove leaves no byte, no listed stripe, nothing of the file, and changes nothing else |
| Calls.EraseListing | src/go/redisfs/store.go:110-117 | after erasing a range of stripes an instance lists exactly what it listed before, without the stripes of the range that it owns |
| Resize.LastInfoMeans | src/go/redisfs/store.go:244-251 | id times stripe size plus length is the size, length is between 1 and the stripe size, id is -1 exactly for size 0 |
| Resize.BelowSize | src/go/redisfs/store.go:244-251 | a position is below the size exactly when its stripe and offset are below the last stripe info |
| Resize.InfoOfFile | src/go/redisfs/store.go:258-259 | the info computed from GetSize is the length of the real last stripe, and no stripe above it has a byte |
| Resize.ShrinkBytes | src/go/redisfs/store.go:262-272 | shrinking, from any store, holes and size 0 included, leaves exactly the old bytes below the new size |
| Resize.ShrinkSize | src/go/redisfs/store.go:262-272 | GetSize afterwards is at most the new size, and equal to it exactly when a byte was stored just below it |
| Resize.GrowExact | src/go/redisfs/store.go:274-289 | growing zero-extends the file if and only if the guard GrowsRight holds before the call |
| Resize.GrowSize | src/go/redisfs/store.go:274-289 | GetSize afterwards is the requested size if and only if the filler byte does not overshoot it |
| Resize.ResizeKeeps | src/go/redisfs/store.go:254-291 | Resize keeps the store invariant and changes only its own file |
| Files.FlatSize | src/go/redisfs/store.go:232-241 | on a file without holes GetSize is the length of the byte sequence |
| Files.FlatStripes | src/go/redisfs/store.go:68-91 | on a file without holes all stripes but the last are full, the last holds 1 to S bytes, none lies behind it |
| Files.WriteExact | src/go/redisfs/store.go:166-173 | WriteAt does to a byte sequence what overwriting with zero fill does, if and only if the write is empty, starts at or before the end, or starts in the stripe of the end |
| Files.ResizeExact | src/go/redisfs/store.go:254-291 | Resize truncates or zero-extends the byte sequence if and only if it shrinks, the size is a multiple of the stripe size, or the filler lands harmlessly in the one last stripe |
| Files.GrowthOverwrites | src/go/redisfs/store.go:284-288 | growing three bytes to four, with stripes of four, destroys the first byte |
| Files.WriteLeavesHole | src/go/redisfs/store.go:166-173 | a byte written one stripe behind an empty file leaves the stripe before it missing |
| Files.CallExact | src/go/redisfs/store.go:163-291 | one call on one file without holes agrees with the byte sequence if and only if it is Faithful |
| Files.RunRefines | src/go/redisfs/store.go:163-291 | over every run of calls on any number of files the sharded store agrees throughout with plain byte sequences if and only if every call is Faithful |
| Files.RunKeepsInv | src/go/redisfs/store.go:163-291 | every run keeps the store invariant, sparse files and unfaithful calls included |
| Files.StrictExactly | src/go/redisfs/store.go:76-81 | after a write the lists are exact again if and only if it made no zero-valued entry, or stripe 0 holds a byte, or the write starts in stripe 0 |
| Files.EmptyStore | src/go/redisfs/store.go:48-53 | freshly started instances satisfy the invariant and hold no file |
| Files.ListedIffStored | src/go/redisfs/store.go:92-117 | after calls of at most 100 stripes an instance lists a stripe if and only if it owns the stripe key and the stripe is not empty |
| Reads.PieceReply | src/go/redisfs/store.go:121-139 | the reply to a piece is never longer than its buffer, so "destination buffer is too small" cannot happen, and holds exactly the defined positions of the piece |
| Reads.SumLayout | src/go/redisfs/store.go:176-185 | the replies of a layout add up to the number of defined positions in the range |
| Reads.ReadCountIs | src/go/redisfs/store.go:76-81 | with extra zero-valued entries the count grows by the length of stripe 0 for each, so it is right if and only if there are none or stripe 0 is empty |
| Reads.CountFlat | src/go/redisfs/store.go:176-185 | on a file without holes the count is that of a slice of the byte sequence |
| DataStores.StripeLayout | src/go/redisfs/store.go:68-91 | the loop with its growing slice: the layout in order up to 100 stripes, beyond that a permutation of the layout and of zero-valued entries |
| DataStores.ReadTotalExact | src/go/redisfs/store.go:176-185 | ReadAt counts exactly the bytes it copied if and only if the call spans at most 100 stripes or the file has no first byte |
| DataStores.ReadOvercounts | src/go/redisfs/store.go:76-81 | reading 101 stripes of a file with a first byte returns more than the number of bytes copied |
| DataStores.LongWriteListsNothing | src/go/redisfs/store.go:76-81 | writing 101 one-byte stripes behind an absent first one lists stripe 0, which has no byte |
| DataStores.DataStore.WriteStripe | src/go/redisfs/store.go:95-107 | the commands of one writing goroutine are its atomic step |
| DataStores.DataStore.RemoveStripe | src/go/redisfs/store.go:110-117 | the commands of one erasing goroutine are its atomic step |
| DataStores.DataStore.TrimStripe | src/go/redisfs/store.go:146-159 | the script of one trimming goroutine is its atomic step |
| DataStores.DataStore.Goroutines | src/go/redisfs/store.go:166-173 | whatever order the scheduler picks, the outcome is that of the steps in program order |
| DataStores.DataStore.WriteAt | src/go/redisfs/store.go:166-173 | under every schedule: the invariant, exact lists exactly when StrictExactly says so, only this file, and every position holding data, old byte or padding zero |
| DataStores.DataStore.ReadStripe | src/go/redisfs/store.go:121-139 | copies the reply into its own part of the buffer and nowhere else; fails exactly when the reply does not fit |
| DataStores.DataStore.ReadAt | src/go/redisfs/store.go:176-185 | under every schedule: never fails, fills exactly the positions that hold a byte, leaves the rest of the buffer alone, and returns ReadTotal |
| DataStores.DataStore.SearchLastStripe | src/go/redisfs/store.go:199-229 | the largest id listed by any instance, -1 if there is none, in any order of the replies |
| DataStores.DataStore.MaxId | src/go/redisfs/store.go:210-216 | the largest id one instance lists |
| DataStores.DataStore.GetSize | src/go/redisfs/store.go:232-241 | no byte at or above the result, and a byte just below it unless it is 0 |
| DataStores.DataStore.Remove | src/go/redisfs/store.go:188-196 | no byte and no listed stripe is left of the file, nothing else changes, under every schedule |
| DataStores.DataStore.Resize | src/go/redisfs/store.go:254-291 | under every schedule the outcome of ResizeSpec, whose meaning the Resize lemmas give |
| MemFiles.OverlayConcat | src/go/redisfs/file.go:171-180 | writing b right behind a is writing a + b, on every store |
| MemFiles.VecReadReported | src/go/redisfs/file.go:115-130 | for buffers of at most 100 stripes, or without a first byte, the reported counts are the real ones |
| MemFiles.VecReadCounts | src/go/redisfs/file.go:115-130 | on any file the vector read counts the bytes of the buffers it visited, and sees end of file if and only if a byte of the whole range is missing |
| MemFiles.VecReadFlat | src/go/redisfs/file.go:115-130 | on a file without holes the total and the end-of-file result are those of one read of the whole length, empty buffers included |
| MemFiles.VecReadStops | src/go/redisfs/file.go:122-125 | it stops early only at a buffer that is not full |
| MemFiles.VecOffsets | src/go/redisfs/file.go:115-130 | each visited buffer is read at its own place in the whole range |
| MemFiles.MemFile.ReadAtOffset | src/go/redisfs/file.go:84-97 | end of file exactly when fewer bytes than asked are reported; an empty buffer reads nothing; a negative offset is refused |
| MemFiles.MemFile.Read | src/go/redisfs/file.go:100-106 | the cursor moves by exactly the count returned |
| MemFiles.MemFile.FillBuffers | src/go/redisfs/file.go:115-130 | the loop returns VecRead and scatters the bytes over the visited buffers |
| MemFiles.MemFile.ReadVecAt | src/go/redisfs/file.go:115-130 | the same for every offset: a negative one fails at the first buffer, if there is one; the cursor does not move |
| MemFiles.MemFile.ReadVec | src/go/redisfs/file.go:132-138 | the cursor moves by exactly the total returned, and the visited buffers hold what was read |
| MemFiles.MemFile.WriteAtOffset | src/go/redisfs/file.go:147-153 | writes all bytes or refuses a negative offset; the cursor does not move |
| MemFiles.MemFile.Write | src/go/redisfs/file.go:156-162 | the cursor moves by exactly the length written |
| MemFiles.MemFile.WriteVecAt | src/go/redisfs/file.go:171-180 | a vector write has the effect of one write of the concatenation, on every store; a negative offset fails at the first element, if there is one |
| MemFiles.MemFile.WriteVec | src/go/redisfs/file.go:182-188 | the cursor moves by exactly the total written |
| MemFiles.MemFile.Seek | src/go/redisfs/file.go:203-223 | from the origin, the cursor or the end, as whence says, the cursor becomes that position if it is not negative; a failed seek leaves it |
| MemFiles.MemFile.Truncate | src/go/redisfs/file.go:69-77 | a negative size changes nothing, any other resizes the file |
| HashRing.AddedPoints | src/go/util/consistenthash.go:69-85 | more ring points move a key only to one of the new points, wrap-around included |
| HashRing.OnlyToAdded | src/go/util/consistenthash.go:57-85 | adding nodes to a ring with points changes an answer only to one of the added nodes, for any hash function |
| HashRing.OwnersAreNodes | src/go/util/consistenthash.go:57-66 | every ring point is owned by an added node, and with replicas and a node there are points |
| HashRing.LatestWins | src/go/util/consistenthash.go:57-66 | every point of the node added last is its own, also where it meets the point of another |
| HashRing.AnswersUnique | src/go/util/consistenthash.go:69-85 | a key has one answer: the latest owner of the least point not below its hash, wrapping to the smallest |
| HashRing.SortInts | src/go/util/consistenthash.go:65 | a sorted permutation |
| HashRing.SearchInts | src/go/util/consistenthash.go:76 | the first index whose element is not below the hash |
| HashRing.ConsistentHash.AddNode | src/go/util/consistenthash.go:58-64 | adds exactly the replicas of the node, the latest node winning a collision |
| HashRing.ReplicasApart | src/go/util/consistenthash.go:59-63 | the replicas of a node hash different strings: a hash without collisions gives each its own point |
| HashRing.ConsistentHash.Add | src/go/util/consistenthash.go:57-66 | from any history of additions the ring is that of all nodes added so far, points sorted |
| HashRing.ConsistentHash.Get | src/go/util/consistenthash.go:69-85 | the answer by binary search, and the empty string on an empty ring |
| HashRing.MetadataTogether | src/go/redisfs/redis.go:250-258 | the mode and children keys of a path hash like its braced prefix |
| HashRing.HashedPartIs | src/go/redisfs/redis.go:250-258 | the part of a key that is hashed, by the positions of its braces |
| HashRing.RedisRing.constructor | src/go/redisfs/redis.go:230-245 | one client per address, named by its index, all on a ring of 100 replicas |
| HashRing.RedisRing.GetClient | src/go/redisfs/redis.go:250-258 | the ring answers for what stands between the first opening brace and the first closing brace behind it, if anything does, and for the whole key in every other case; with at least one address there is a client |
| Wiring.RingWires | src/go/redisfs/redis.go:230-258 | a ring with a node gives every key an instance, as the store assumes, and all metadata of a path the same one |
| IdleLists.IdleList.PushFront | src/go/redigo/redis/pool.go:590-601 | the linked list is the old sequence with the node in front |
| IdleLists.IdleList.PopFront | src/go/redigo/redis/pool.go:603-613 | the first node is taken out and detached, the rest is the rest of the sequence |
| IdleLists.IdleList.PopBack | src/go/redigo/redis/pool.go:615-625 | the last node is taken out and detached |
| Pool.StepCounts | src/go/redigo/redis/pool.go:304-428 | every step keeps: active is idle plus callers holding a place, tokens plus holders are MaxActive, both limits |
| Pool.StepChannels | src/go/redigo/redis/pool.go:260-428 | every step keeps: no send on a closed channel, no double close, no blocking send under the mutex, channel closed exactly with the pool |
| Pool.StepOwned | src/go/redigo/redis/pool.go:304-428 | every step keeps: a connection is once in the idle list or with one caller |
| Pool.StepInv | src/go/redigo/redis/pool.go:260-428 | one step keeps the whole invariant |
| Pool.RunInv | src/go/redigo/redis/pool.go:260-428 | every run keeps the whole invariant |
| Pool.Safe | src/go/redigo/redis/pool.go:260-428 | from a new pool, over every interleaving of any number of callers: no fault, the counts, the limits, and token conservation while open |
| Pool.Exclusive | src/go/redigo/redis/pool.go:304-428 | no connection is borrowed twice, or borrowed and idle |
| Pool.WaitsForHolders | src/go/redigo/redis/pool.go:306-330 | while the pool is open a caller is kept waiting only when MaxActive others hold a token |
| Pool.DrainedAfterClose | src/go/redigo/redis/pool.go:260-279 | once the pool is closed and every caller is done, active is 0 |
| PoolOrder.NewestFirst | src/go/redigo/redis/pool.go:403-413 | over every run the idle list is strictly ordered by the time of the last return, newest first |
| PoolOrder.BackIsOldest | src/go/redigo/redis/pool.go:339-349 | so the connection at the back tells whether any has been idle since before a given time, as pruning assumes |
| PoolOrder.PutEvictsOldest | src/go/redigo/redis/pool.go:403-420 | in every reachable state put loses and invents no connection, keeps the returned one if any may be kept, and closes one exactly when the list is full, which was returned before every one that is left; by force or in a closed pool it closes the returned one |
| PoolOrder.ChooseByAge | src/go/redigo/redis/pool.go:339-364 | with idle connections, get takes the one returned last, and prunes the one returned first |
| PoolOrder.GetBorrowsNewest | src/go/redigo/redis/pool.go:304-364 | a whole get that no one interferes with ends, in every reachable state with an idle connection, with the one returned last |
| PoolOrder.GetDials | src/go/redigo/redis/pool.go:365-391 | with no idle connection it ends with a connection no one else has, if the pool is neither closed nor exhausted and the dial succeeds |
| PoolOrder.GetSkipsBad | src/go/redigo/redis/pool.go:352-364 | a connection that fails the test is dropped for good and the next one is borrowed |
| PoolOrder.GetRefused | src/go/redigo/redis/pool.go:366-376 | a get of a closed pool, or of an exhausted one that does not wait, ends without a connection and changes no count |
| PoolOrder.PutThenGet | src/go/redigo/redis/pool.go:304-428 | a connection put back while the list has a place, and got again at once, is the same, and the list is as before |
| PoolOrder.ClosedForGood | src/go/redigo/redis/pool.go:260-278 | once closed a pool stays closed with no idle connection, over every run |
| PoolObjects.ConnPool.constructor | src/go/redigo/redis/pool.go:125-185 | a new pool is in the initial state |
| PoolObjects.ConnPool.LazyInit | src/go/redigo/redis/pool.go:281-300 | sets up the channel once, with MaxActive tokens or closed, and every send finds room |
| PoolObjects.ConnPool.Receive | src/go/redigo/redis/pool.go:316-325 | takes one token, or passes a closed channel |
| PoolObjects.ConnPool.Choose | src/go/redigo/redis/pool.go:332-377 | prune from the back, take from the front, give up or dial: the step that PoolOrder.ChooseByAge, GetBorrowsNewest and GetDials characterise |
| PoolObjects.ConnPool.Dialled | src/go/redigo/redis/pool.go:377-390 | a failed dial gives up its place and its token; the send neither blocks nor meets a closed channel |
| PoolObjects.ConnPool.Put | src/go/redigo/redis/pool.go:403-428 | put up to releasing the mutex is the step that PoolOrder.PutEvictsOldest characterises; the connection to be closed, if any, is out of the list |
| PoolObjects.ConnPool.PutEnd | src/go/redigo/redis/pool.go:417-427 | the place and the token of an evicted connection are given up |
| PoolObjects.ConnPool.DropAll | src/go/redigo/redis/pool.go:266-277 | following the links after emptying the list visits every idle connection once, in order |
| PoolObjects.ConnPool.Close | src/go/redigo/redis/pool.go:260-279 | every idle connection is closed exactly once, a second Close does nothing |
| Resp.WriteLen | src/go/redigo/redis/conn.go:351-366 | fills the 32-byte scratch backwards with prefix, decimal digits and CR LF, never leaving it, for every non-negative 64-bit length |
| Resp.DecFits | src/go/redigo/redis/conn.go:351-366 | a 64-bit length has at most 19 digits |
| Resp.WriteArg | src/go/redigo/redis/conn.go:403-444 | whatever follows it, what is sent for an argument reads back as a bulk string of the bytes themselves, 1 or 0 for a truth value, nothing for nil, the text for anything printed, and a text that parses to the number for an integer |
| Resp.WriteCommand | src/go/redigo/redis/conn.go:390-401 | whatever follows it, what is sent reads back as one array with one such bulk string for the name and each argument, and what follows is left |
| Resp.ParseLenLoop | src/go/redigo/redis/conn.go:475-494 | the loop computes the number in wrapping 64-bit arithmetic, or reports the error of the first bad byte |
| Resp.ParseLenOf | src/go/redigo/redis/conn.go:475-494 | parseLen undoes writeLen |
| Resp.ParseIntOf | src/go/redigo/redis/conn.go:497-529 | parseInt undoes the printing of every 64-bit integer, the least one included |
| Resp.BulkRoundTrip | src/go/redigo/redis/conn.go:539-594 | reading a printed bulk string returns its bytes, CR and LF included, and leaves what follows |
| Resp.CommandRoundTrip | src/go/redigo/redis/conn.go:351-606 | reading a printed command returns exactly its arguments and leaves exactly the tail |
| Resp.BulkIntoBuffer | src/go/redigo/redis/conn.go:576-590 | a bulk string read into a buffer is stored and counted, and refused exactly when the buffer is smaller |
| Resp.LineReplies | src/go/redigo/redis/conn.go:549-600 | lines that start with plus, minus or colon are a status, an error and the printed integer; a length of -1 is nil; what follows is left |
| Session.StaysInStep | src/go/redigo/redis/commandinfo.go:28-55 | without misuse the state bits agree with what the server keeps |
| Session.CleanExactly | src/go/redigo/redis/pool.go:453-489 | a connection can be given back clean at every moment of a use if and only if the use never sends EXEC or DISCARD with keys watched and no transaction begun |
| Session.WatchThenExec | src/go/redigo/redis/pool.go:453-489 | WATCH then EXEC gives back a connection that still watches keys |
| Session.Conn.Flush | src/go/redigo/redis/conn.go:621-629 | the server has received everything sent, and answered it in order |
| Session.Conn.Send | src/go/redigo/redis/conn.go:608-619 | pending counts commands without a reply, whether or not the buffer was flushed on the way |
| Session.Conn.Receive | src/go/redigo/redis/conn.go:635-661 | returns the reply to the oldest unanswered command and counts it off, or waits when none is under way |
| Session.Conn.Do | src/go/redigo/redis/conn.go:667-721 | after any Sends and Receives: the reply to its own command, the first error reply of all it reads, and nothing left unread |
| Session.Conn.Drain | src/go/redigo/redis/conn.go:697-707 | Do of the empty command returns every outstanding reply in order and leaves none |
| Session.ActiveConn.Send | src/go/redigo/redis/pool.go:523-531 | the state bits follow the commands of this use |
| Session.ActiveConn.Do | src/go/redigo/redis/pool.go:499-507 | the reply to its own command, the first error reply of all it reads, and the state bits follow |
| Session.ActiveConn.Close | src/go/redigo/redis/pool.go:453-489 | leaves nothing unread; forces a close only for an error of the connection; a connection that was clean when lent goes back clean if and only if its use ends clean |
| Session.ClosedLink | src/go/redigo/redis/pool.go:453-489 | closing a use sends its cleanup command, reads every reply, and leaves the read buffer as it is |
| Session.Pipeline | src/go/redisfs/redis.go:199-221 | MULTI, the commands, EXEC: the reply is that of EXEC and the connection goes back clean |
| Session.ReadInto | src/go/redisfs/redis.go:96-106 | the reply is that of the command, and the read buffer is gone before the connection goes back |
| PoolSessions.OnWireOk | src/go/redigo/redis/pool.go:499-570 | whatever a borrower does, the connection counts its replies and what was sent is what was heard before and in this use |
| PoolSessions.EndUsePoolable | src/go/redigo/redis/pool.go:453-489 | a connection that was clean when lent is fit for the idle list if and only if its use ends clean with the read buffer unset |
| PoolSessions.RestingBefore | src/go/redigo/redis/pool.go:304-428 | only putting back a connection adds one to those that lie idle |
| PoolSessions.StepInv | src/go/redigo/redis/pool.go:304-489 | every step of pool and borrowers keeps: idle connections have nothing buffered, nothing unread and no error |
| PoolSessions.StepPoolable | src/go/redigo/redis/pool.go:403-489 | one step keeps all idle connections fit if and only if it does not list one after a use that was not clean |
| PoolSessions.IdleExactly | src/go/redigo/redis/pool.go:304-489 | over every run of any number of callers: all idle connections are outside a transaction, watch nothing, have no unread reply and no read buffer, throughout, if and only if every use after which one stayed idle was clean; nothing is ever unread |
| PoolSessions.IdleAfterProperUse | src/go/redigo/redis/pool.go:304-489 | so they are over every run without EXEC or DISCARD on watched keys outside a transaction and with read buffers unset |
| PoolSessions.IdleInPdwfs | src/go/redisfs/redis.go:48-221 | so they are over every run of plain commands and transactions without WATCH, as pdwfs sends them |
| PoolSessions.WatchedWhileIdle | src/go/redigo/redis/pool.go:453-489 | a run after which an idle connection still watches a key |
| AbsPath.ComponentsOfRender | src/c/utils.c:51-102 | splitting a rendered stack of components gives the stack back |
| AbsPath.Idempotent | src/c/utils.c:19-103 | normalising twice changes nothing, from whatever directory |
| AbsPath.ResultShape | src/c/utils.c:19-103 | absolute, no empty, "." or ".." component, a trailing slash only on the root |
| AbsPath.SameDirectory | src/c/utils.c:51-64 | the empty name and "." give the working directory itself |
| AbsPath.Child | src/c/utils.c:69-97 | a name gives that entry of the working directory, below the root too |
| AbsPath.Parent | src/c/utils.c:65-68 | ".." gives the directory of which the working directory is an entry, and stays at the root |
| AbsPath.InSteps | src/c/utils.c:51-102 | a path may be followed in two steps, cut at any slash behind its first character that no other follows |
| AbsPath.FromRoot | src/c/utils.c:37-47 | an absolute path does not depend on the working directory |
| AbsPath.Pop | src/c/utils.c:65-68 | ".." removes the last component and stays at the root |
| AbsPath.Append | src/c/utils.c:69-97 | slash if needed, reallocation if needed, then the name: the buffer holds one component more and is never overrun |
| AbsPath.Finish | src/c/utils.c:99-102 | the finished string is the rendered stack |
| AbsPath.Run | src/c/utils.c:19-103 | for every name length, allocation outcome and directory: the path that SameDirectory, Child, Parent, InSteps and FromRoot determine, or the error of the case |
| Transfer.FailsExactly | tools/pv/src/pv/transfer.c:31-89 | a read call fails if and only if it reaches a failing read() |
| Transfer.LosesExactly | tools/pv/src/pv/transfer.c:31-89 | it forgets bytes if and only if a read() fails after an earlier one of the call has brought some |
| Transfer.KeptExactly | tools/pv/src/pv/transfer.c:45-54 | over every sequence of calls, whatever the inputs answer: all that was taken is kept if and only if in no call a read() fails after an earlier one has brought bytes |
| Transfer.ForgottenByte | tools/pv/src/pv/transfer.c:45-54 | a byte read and then a failing read() of the same call: the byte is gone |
| Transfer.BlocksExactly | tools/pv/src/pv/transfer.c:103-183 | a write call returns 0 if and only if its first write() takes nothing or is interrupted |
| Transfer.ReadsUntilFull | tools/pv/src/pv/transfer.c:31-89 | a read call goes on, in the order of the answers, until there is no room, as long as read() brings bytes and the timer does not expire |
| Transfer.WritesUntilDone | tools/pv/src/pv/transfer.c:103-183 | a write call goes on until all is written, as long as write() takes bytes and the timer does not expire |
| Transfer.State.ReadRepeated | tools/pv/src/pv/transfer.c:31-89 | the loop is ReadCall: for any pattern of partial reads the bytes read follow those in the buffer |
| Transfer.State.TrySplice | tools/pv/src/pv/transfer.c:229-259 | a splice happens only when the buffer may not be written; with a limit it moves at most that many bytes, and when it moves any, nothing waits in the buffer |
| Transfer.State.Read | tools/pv/src/pv/transfer.c:212-345 | keeps conservation, the position bounds and the meaning of the end flags; bytes spliced never overtake waiting ones |
| Transfer.State.WriteRepeated | tools/pv/src/pv/transfer.c:103-183 | the loop is WriteCall: for any pattern of partial writes, failing ones included, the output grows by the front of the buffer |
| Transfer.State.Write | tools/pv/src/pv/transfer.c:487-640 | exactly what was written leaves the front of the buffer, at most toWrite bytes; the output ends when the call returned 0, or the input has ended and nothing waits |
| Transfer.State.Resize | tools/pv/src/pv/transfer.c:686-707 | growing the buffer, or failing to, keeps what waits |
| Transfer.State.Rotate | tools/pv/src/pv/transfer.c:837-856 | rotation keeps what waits and moves it to the start |
| Transfer.State.PvTransfer | tools/pv/src/pv/transfer.c:651-859 | exactly what a call moves: it reads into the room there is when the input has not ended and is ready, by splice() when it may, and writes what waits, cut to the allowance, when the output is ready, has not ended and nothing was spliced; when the input ends; never more output than the allowance when there is one, nothing kept is lost or reordered |
| Transfer.Stranded | tools/pv/src/pv/transfer.c:503-508 | a byte read, the only write() refused with EAGAIN, and the input ends: the transfer is over with the byte waiting |
| MainLoops.QuotaIs | tools/pv/src/pv/loop.c:148-162 | what all refills allow is their number times a tenth of the rate limit |
| MainLoops.LivelyMoves | tools/pv/src/pv/transfer.c:743-834 | with ready descriptors and answers that move bytes, a call takes bytes whenever there is room and the input has some, and outputs bytes whenever any may be, limits or not |
| MainLoops.LivelyRound | tools/pv/src/pv/transfer.c:743-834 | such a call without limits keeps a steady transfer steady, and at the end of the input leaves strictly less to do, a full buffer included |
| MainLoops.MainLoop.Round | tools/pv/src/pv/loop.c:130-217 | the transfer gets the whole bytes of the target, never more than is missing at the size to stop at; at that size nothing moves and both ends are closed; target plus total stays the quota |
| MainLoops.MainLoop.Turn | tools/pv/src/pv/loop.c:130-217 | a steady run stays steady, the next input included, and at the ends of the inputs every round brings it closer to its end |
| MainLoops.MainLoop.Loop | tools/pv/src/pv/loop.c:130-217 | over any rounds and files: total at most refills times a tenth of the rate limit and at most the size to stop at; output then waiting bytes are the bytes taken if and only if no call forgot any; a run that ends of itself has output everything if and only if no write call for the last input returned 0; and a run without limits, with ready descriptors and answers that move bytes, ends with everything output once the inputs stay at their ends for as many rounds as buffer bytes and files |
| Meta.MetaKeepsData | src/go/redisfs/inodes.go:58-71 | metadata commands change no byte, no listing, and keep the store invariant |
| Meta.MetaOfOthers | src/go/redisfs/inodes.go:58-71 | nor any metadata of another path |
| Meta.InitMetaEffect | src/go/redisfs/inodes.go:58-65 | the inode exists afterwards with the given mode, or with the mode it had before, and a directory has its sentinel |
| Meta.SetChildEffect | src/go/redisfs/inodes.go:127-130 | exactly one entry more |
| Meta.RemoveChildEffect | src/go/redisfs/inodes.go:133-136 | exactly one entry less |
| Meta.DelMetaEffect | src/go/redisfs/inodes.go:68-71 | neither mode nor children are left |
| Meta.DirectoryIs | src/go/redisfs/inodes.go:74-82 | the children key exists exactly when the set has a member, so the sentinel makes a directory |
| Meta.DataRemoveEffect | src/go/redisfs/inodes.go:185-186 | removing content keeps all metadata and all other content |
| Tree.AllReachable | src/go/redisfs/fs.go:114-150 | exactly the paths reached from a mount point along listed entries exist |
| Tree.CreateKeeps | src/go/redisfs/fs.go:114-120 | creating an inode in an existing directory keeps the tree valid and adds exactly that inode, empty |
| Tree.FileWorkKeepsTree | src/go/redisfs/fs.go:114-150 | any work on the content of one regular file keeps the tree and all other files |
| Tree.SiblingsApart | src/go/redisfs/inodes.go:184-195 | nothing is below two entries of one directory |
| Tree.BelowSplit | src/go/redisfs/inodes.go:188-192 | what is below a directory is below one of its entries |
| Tree.BelowJoin | src/go/redisfs/inodes.go:188-192 | and what is below an entry is below the directory |
| Tree.BelowStable | src/go/redisfs/inodes.go:188-192 | removing some entries does not change what is below another |
| Tree.RemovedMore | src/go/redisfs/inodes.go:189-191 | entries may be removed one after the other, in any order |
| Tree.RemovedDirectory | src/go/redisfs/inodes.go:184-195 | a directory whose entries and metadata are removed is gone with all below it, and nothing else changed |
| Tree.RemovedFile | src/go/redisfs/inodes.go:184-195 | so is a regular file |
| Tree.RemovedTree | src/go/redisfs/fs.go:287-303 | unlisting a node and removing all below it keeps the tree valid, and nothing outside changes but one entry of the parent |
| Namespace.RedisFS.constructor | src/go/redisfs/fs.go:78-94 | mounting on an empty store, an existing tree or beside the trees of other mounts gives a valid file system and leaves existing trees as they are |
| Namespace.RedisFS.GetInode | src/go/redisfs/fs.go:122-132 | the cached answer is the answer Redis would give |
| Namespace.RedisFS.IsDir | src/go/redisfs/inodes.go:74-82 | the answer kept in the cache is the answer Redis would give |
| Namespace.RedisFS.FileInfo | src/go/redisfs/fs.go:139-150 | succeeds exactly on the mount point and below an existing directory, and finds exactly what exists |
| Namespace.RedisFS.CreateInode | src/go/redisfs/fs.go:114-120 | keeps the whole file system valid, cache included |
| Namespace.RedisFS.Mkdir | src/go/redisfs/fs.go:153-174 | succeeds exactly on a new path in an existing directory and on the mount point; every error leaves the store alone |
| Namespace.RedisFS.OpenFile | src/go/redisfs/fs.go:238-263 | every outcome of its flags; a new file is empty, O_TRUNC empties an existing one, otherwise nothing changes; the cursor starts at 0 or, appending, at the end |
| Namespace.RedisFS.ReadDir | src/go/redisfs/fs.go:189-213 | lists exactly the existing inodes one level below, strictly ascending in the order that LessExactly fixes, one fewer than the children set holds |
| Namespace.Sorted | src/go/redisfs/fs.go:177-186 | the members, each once, strictly ascending in that order |
| Namespace.LessExactly | src/go/redisfs/fs.go:177-186 | the order of Go strings: a proper prefix first, else the first different character decides |
| Namespace.RedisFS.RemoveTree | src/go/redisfs/inodes.go:184-195 | the recursion removes the path and all below it and nothing else |
| Namespace.RedisFS.RemoveEntries | src/go/redisfs/inodes.go:188-192 | in any order of the entries, everything below them is removed and nothing else |
| Namespace.RedisFS.Remove | src/go/redisfs/fs.go:287-303 | every outcome; the tree stays valid; the cache stays right if and only if nothing else below the path was cached |
| Namespace.RedisFS.RmDir | src/go/redisfs/fs.go:216-229 | removes exactly the empty directories and always keeps the whole file system valid |
| Namespace.CacheAfterRemove | src/go/redisfs/fs.go:134-137 | dropping only the removed path keeps the cache right if and only if no other cached inode was below it |
| Namespace.StaleEntry | src/go/redisfs/fs.go:134-137 | after mkdir /m/d, mkdir /m/d/e and removing /m/d the cache still holds /m/d/e, which no longer exists |
| Namespace.EntriesAre | src/go/redisfs/fs.go:189-213 | in a valid tree a directory lists exactly what exists one level below it |
| Namespace.HandleKeeps | src/go/redisfs/inodes.go:156-181 | reads, writes and truncations through a handle of an existing file keep the file system valid |

## Left out

- DataStores.DataStore.Goroutines: a goroutine is one atomic step, because its commands form one MULTI/EXEC block or one script; goroutines of different calls on the same file at the same time are not modelled, nor does the code order them.
- DataStores.DataStore.ReadAt: the destination is one buffer that no one else writes during the call.
- MemFiles.MemFile.ReadVecAt: what the buffers hold is stated for distinct buffers only; count and end of file are stated for all.
- MemFiles.MemFile.Read: the cursor is an unbounded integer, so the overflow of 64-bit positions is not modelled; the same holds for all file positions and sizes. The length arithmetic of the wire format does wrap.
- Namespace.RedisFS.constructor: a mount point inside the tree of another mount, or the other way round, is not covered; nor is a second RedisFS object mounted on the same store while the first is in use.
- Redis.Overwrite: the 512 MB limit of a Redis string is not modelled.
- Session.Conn.Do: a connection with an I/O or protocol error gives no replies one can rely on; that an error occurred is a parameter of Close and an event of PoolSessions, and what the replies are then is not modelled. Timeouts and MONITOR are left out.
- Session.ActiveConn.Close: subscriptions, which pdwfs does not use, are left out.
- PoolSessions.IdleExactly: TestOnBorrow, which pdwfs does not set, sends nothing in the model.
- Pool.Step: dialling, TestOnBorrow, idle time and connection age are arbitrary choices; the bound on the number of connections pruned in one get is not modelled, so the runs include those that prune more.
- PoolObjects.ConnPool.Choose: the closing and testing of a connection without the mutex is what lies between two steps and has no code in the model.
- Namespace.RedisFS.Mkdir: paths are what filepath.Abs returns, which is not part of this model; the same holds for all operations on paths. Names are compared character by character.
- Namespace.RedisFS.OpenFile: access modes, which only wrap Read and Write, are left out, and appending moves the cursor at opening only, as in the code.
- Namespace.RedisFS.Remove: one process with one mount; handles that write to a removed path, and the caches of other processes, get no guarantee from the code.
- AbsPath.Run: getcwd gives a normalised absolute path shorter than PATH_MAX or fails; other failures of getcwd are left out.
- Transfer.State.PvTransfer: byte mode without error skipping; line mode, the display of the last output bytes and the error counters are left out; after a write that fails for good, which ends the program, only the bytes it handed over are stated.
- MainLoops.MainLoop.Round: the rate target is an exact rational, so the rounding of long double is not modelled; the loop keeps its quota, files and end-of-file logic only.
- HashRing.ConsistentHash.Get: the hash is an arbitrary function; CRC32 is not part of this model.
- The exported cgo functions, errno mapping and interception of libc calls: dispatch without state of its own.
- Stat, Lstat, Mode and the statistics of the pool: they only read what is modelled here.
- Sockets, TLS, URL parsing, logging, scripts loaded by hash, configuration: library or process plumbing.
