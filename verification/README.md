# Verified model of a small Redis-like server

A Dafny model of the server's stateful core, with proofs that its structures agree with each other and with plain maps, sequences and byte streams.

- **Sorted sets.** `Keys`, `AvlTree`, `Avl`, `AvlDelete`, `AvlRank`, `ZTree`, `SetMachine`, `ZSets`, `ZQuery`, `ZRun`. Nodes are heap objects with left, right and parent pointers and cached depth and count. `AvlTree` describes the same trees as values, with a zipper for the walk to the root; `Avl` and `AvlDelete` show that the pointer code does to the heap what those functions do to the value. A `ZSet` ties the tree to the name index and stands for a map from name to score; `SetMachine` says what its operations do to that map and to the name tables, and when they return.
- **Hash map.** `HashTable`, `Migration`, `HashMap`. Bucket arrays and `next` pointers, two tables and a partial migration between them. The migration loop of `hm_help_resizing` exists in two labelled forms, chosen by the constant `skipsEmpty`. With `false` it is the loop as written: its branch for an empty bucket repeats without advancing, so the call may never return. Such a call has `done == false`. `Migration` describes the two tables as values and says, for the loop as written, exactly when a call returns and what it leaves; every layer above carries that condition up, so a run of operations returns exactly when the values say so. With `true` it is the loop the code intends, which advances `resizing_pos`; there every call returns.
- **Key space and timers.** `TtlHeap`, `Database`, `KeySpace`, `Commands`, `IdleList`, `PollTimeout`, `EventLoop`. The array heap of deadlines with its back-references, the entries in the hash map, the queue of entries to destroy, the ring of idle connections and the `poll` timeout. `KeySpace` is what they stand for: a map from keys to strings and sets, a map from keys to deadlines, and a step relation for every operation and for a timer pass.
- **Wire.** `Wire`, `Request`, `Response`, `Framing`, `Session`, `Connection`, `Dialogue`. Both codecs, and the connection as a state machine over fixed buffers. What the kernel answers to `read` and `write` is an arbitrary script, so a contract holds for every way reads and writes are split, retried or fail. `Session` is the same machine on values; `Connection` shows that the buffers follow it, and `Dialogue` what a client then sees of the data.
- **Thread pool.** `ThreadPool`. Workers and callers as interleaved steps over a mutex and a condition variable with the meaning of the System Interfaces volume of POSIX.1-2017, spurious wake-ups included.

Where the code does not do what it is meant to, the code is kept, an input shows it, and the exact condition is proved:

- The migration loop as written hangs when the one-byte names 0 to 31 are added to an empty set (`ZRun.HangingRun`), and so does the server when they are added to the set of one key (`Commands.HangingZadd`). A run on a set returns if and only if `SetMachine.Machine` does, which depends on the operations alone: always while fewer than 32 names are live (`SetMachine.FewNamesReturn`), and past that only by the hash codes (`SetMachine.ThirtySecondName`). An operation of the server hangs if and only if there is no state it could lead to (`KeySpace.HangsExactly`). A migration without removals completes if and only if all nodes are in bucket 0 (`Migration.CompletesIff`).
- A request can stay in the read buffer of a connection that waits for input (`Connection.Stall`). A connection left waiting has served every complete request if and only if none was buffered before the wake-up or the wake-up could read (`Connection.Conn.WakeUp`, `Session.WaitsBare`).
- A wait of 2^31 ms or more makes the `poll` timeout useless (`PollTimeout.LongTtlNeverTimesOut`), and only that (`PollTimeout.SleepThenFire`).

The unit test for trees compares counts and depths with assignments (src/test_avl.cpp:85, src/test_avl.cpp:90), so it does not check them; here they are part of the invariant.

Predicates of the form `forall v <- {x} :: P(v)` are the predicate `P(x)`, kept folded until a proof asks for it.

## Model

| member | source | states |
|---|---|---|
| `Keys.NameLessIsDictionary` | src/zset.cpp:54-60 | Comparing by memcmp on the common length and then by length is the dictionary order on unsigned bytes, both ways. |
| `Keys.ZLessTotal` | src/zset.cpp:48-61 | Of two tuples exactly one is below the other, or they are the same tuple. |
| `Keys.ZLessTransitive` | src/zset.cpp:48-61 | The order of tuples is transitive; with the previous row it is a strict total order. |
| `Keys.ZLessIsPrecedes` | src/zset.cpp:48-61 | That order is ascending by score, and by the dictionary order of the names for equal scores, both ways. |
| `Keys.HashLoop` | src/utils.h:84-90 | The loop computes the hash used for the tables, and that is the value of the computation without wrap-around, reduced to 32 bits at the end. |
| `AvlTree.FixInorder` | src/avl.cpp:54-82 | Single and double rotations keep the in-order sequence. |
| `AvlTree.FixBalanced` | src/avl.cpp:54-103 | If one subtree is at most one level off a height that was in balance, one turn restores balance there and changes the height by at most one level. |
| `AvlTree.RebuildInorder` | src/avl.cpp:87-112 | The turns at all ancestors keep the in-order sequence. |
| `AvlTree.RebuildBalanced` | src/avl.cpp:87-112 | After one subtree changed height by at most one level, the turns at all ancestors leave every balance factor in {-1, 0, 1}. |
| `AvlTree.DeleteInorder` | src/avl.cpp:118-159 | Deleting a node leaves the in-order sequence without that one element, also when the successor takes its place and the successor's removal rotates it. |
| `AvlTree.DeleteNodes` | src/avl.cpp:118-159 | Deletion removes exactly the given node from the set of nodes and keeps the rest distinct. |
| `AvlTree.DeleteBalanced` | src/avl.cpp:118-159 | Deletion from a balanced tree leaves a balanced tree. |
| `AvlTree.SizeBound` | src/avl.h:33-37 | A balanced tree of height h has at least Fib(h+2)-1 and at least 2^(h/2)-1 nodes. |
| `Avl.RotateLeftAt` | src/avl.cpp:19-33 | On the heap: the pointers, parents, depths and counts of the rotated subtree are exact, and nothing else changes. |
| `Avl.RotateRightAt` | src/avl.cpp:35-49 | The mirror image. |
| `Avl.FixLeftAt` | src/avl.cpp:54-59 | The heap holds the fixed subtree, with exact links and caches. |
| `Avl.FixRightAt` | src/avl.cpp:61-82 | The mirror image. |
| `Avl.Rebalance` | src/avl.cpp:87-112 | From a subtree with exact children up to the root: the heap holds the rebuilt tree, every link, depth and count in it is exact, and its root is returned. |
| `AvlDelete.TakePlace` | src/avl.cpp:140-158 | Copying the node's record into the successor and repairing its neighbours swaps the two nodes in the tree and nothing else. |
| `AvlDelete.Remove` | src/avl.cpp:118-159 | On the heap, avl_delete leaves exactly the tree without the node, linked and cached, and returns its root, also for the root and when the node was rotated meanwhile. |
| `AvlRank.RankIsIndex` | src/avl.cpp:161-192 | The rank computed from subtree counts is the index in the in-order sequence. |
| `AvlRank.Offset` | src/avl.cpp:161-192 | The result is the node at rank(start)+offset, null exactly when that is outside the order; the walk climbs, then descends, in at most 2(height-1) moves. |
| `AvlRank.WalkIsLogarithmic` | src/avl.h:33-37 | That number of moves is logarithmic in the size of a balanced tree. |
| `ZTree.TreeAdd` | src/zset.cpp:27-46 | Inserting a node keeps a linked balanced search tree, now with that node. |
| `ZTree.TreeRemove` | src/zset.cpp:163-163 | Deleting a node keeps a linked balanced search tree of the other nodes and their scores. |
| `ZTree.TreeUpdate` | src/zset.cpp:68-77 | A score change by deletion and reinsertion, or none for an equal score, changes that one score in a balanced search tree of the same nodes. |
| `ZTree.LowerBound` | src/zset.cpp:126-138 | The descent finds the first tuple that does not precede the key by score and name, null if there is none; all tuples before it precede the key. |
| `ZSets.HcmpIsEquality` | src/zset.cpp:92-105 | Within an index the comparison of hash, length and bytes holds exactly for the node of that name. |
| `ZSets.ZSet.Lookup` | src/zset.cpp:107-124 | Finds the node of a name exactly when there is one, keeps the set valid, and returns exactly when the index tables let it. |
| `ZSets.ZSet.Add` | src/zset.cpp:79-90 | Tree and index keep holding the same nodes, and the map becomes the old one with name at score; the result tells whether the name was new. The call returns exactly when the name tables let it, and they become the ones `Added` says. |
| `ZSets.ZSet.Pop` | src/zset.cpp:147-165 | The map loses exactly that name; its node is returned with the score it had. The call returns exactly when the name tables let it. |
| `ZRun.PresentedOnce` | src/zset.cpp:27-165 | A map has only one sequence of its tuples that ascends by score and, for equal scores, by name. |
| `ZRun.Reading` | src/zset.cpp:27-165 | The in-order sequence of a valid set is the sorted sequence of its map, and the index holds the same nodes. |
| `ZRun.Run` | src/zset.cpp:68-165 | After every run of add, pop and lookup from an empty set the set is valid, stands for the map the operations describe, and is in that map's sorted order. All calls return with the intended loop; with the loop as written they return if and only if `Machine` of the operations does. |
| `SetMachine.FewNamesReturn` | src/hashtable.cpp:69-124 | While fewer than 32 names are live, every call of the code as written returns. |
| `SetMachine.ThirtySecondName` | src/hashtable.cpp:69-124 | The call that brings in the 32nd name returns if and only if all 32 names hash to a multiple of four. |
| `SetMachine.OneByteNamesHang` | src/hashtable.cpp:77-80 | Of the additions of the one-byte names 0 to 31 the first 31 return and the last one does not. |
| `ZRun.HangingRun` | src/hashtable.cpp:77-80 | That run, on the real structures. |
| `ZQuery.Query` | src/zset.cpp:126-145 | The result is the tuple offset places from the first one that does not precede the key; null without such a tuple, whatever the offset, or outside the order. |
| `ZQuery.DoZQuery` | src/server.cpp:592-610 | The reply is the serialized slice of the tuples of the map in ascending order, from offset places behind the first that does not precede the key, of min(ceil(limit/2), remaining) pairs; its count, patched in afterwards, is that of the elements in it. |
| `ZQuery.OneAnswer` | src/server.cpp:592-610 | The map from names to scores and the arguments leave only one such reply. |
| `HashTable.MaskIsRemainder` | src/hashtable.cpp:10-27 | For the sizes that h_init accepts, masking is the remainder modulo the number of buckets. |
| `HashTable.HTable.Insert` | src/hashtable.cpp:21-27 | The table holds one more node, at the front of the bucket its code selects. |
| `HashTable.HTable.Lookup` | src/hashtable.cpp:29-44 | Finds a matching node if one with that code is in the table, and where it hangs. |
| `HashTable.HTable.Detach` | src/hashtable.cpp:46-51 | Cuts exactly that node out of its chain. |
| `HashTable.FlatOnce` | src/hashtable.cpp:54-65 | A scan of all buckets meets no node twice. |
| `HashTable.HTable.Scan` | src/hashtable.cpp:54-65 | The nodes met are all chains, one after another. |
| `HashMap.HMap.HelpResizing` | src/hashtable.cpp:69-91 | Keeps the nodes and the separation of the tables and moves min(128, remaining); as written it returns exactly when bucket 0 holds as many, and leaves the tables `Helped` says. |
| `HashMap.HMap.Lookup` | src/hashtable.cpp:93-100 | Finds a matching node exactly when one is in either table, through any half-finished migration. |
| `HashMap.HMap.Pop` | src/hashtable.cpp:126-139 | Removes and returns a matching node exactly when there is one; all other nodes stay. |
| `HashMap.HMap.Insert` | src/hashtable.cpp:110-124 | Adds exactly that node and keeps growth in pace, growing the table when it is full; it returns exactly when `InsertEnds`, and leaves the tables `Inserted` says. |
| `HashMap.HMap.LoadBound` | src/hashtable.cpp:110-124 | Between calls the new table holds fewer than eight nodes per bucket, although the load is not checked during a migration. |
| `HashMap.HMap.SizeIsCount` | src/hashtable.cpp:67-67 | The two size fields together are the number of nodes. |
| `HashMap.EndsExactlyWhen` | src/hashtable.cpp:74-84 | Turn by turn, the loop as written ends if and only if the chain at resizing_pos holds the work that is left: min(128, size) nodes at the start of a call. |
| `HashMap.HMap.Advance` | src/hashtable.cpp:74-84 | On the tables, a call with a migration underway returns if and only if that loop, started from the size of the old table and the length of its first chain, stops. |
| `HashMap.Stuck` | src/hashtable.cpp:77-80 | At an empty bucket with nodes left, any number of turns changes nothing. |
| `HashMap.FillingCompletesIff` | src/hashtable.cpp:110-124 | The insertion that fills a table of any size starts a migration that lookups complete if and only if every node hashes to bucket 0; up to 16 buckets the insertion itself returns only then. |
| `Migration.AllInFirstCompletes` | src/hashtable.cpp:69-124 | With all nodes of the old table in bucket 0, any calls that remove nothing complete the migration, in as many as it takes. |
| `Migration.OthersNeverComplete` | src/hashtable.cpp:69-124 | With a node elsewhere no such calls complete it, and one of the next size/128 + 1 does not return. |
| `Migration.CompletesIff` | src/hashtable.cpp:69-124 | Such a migration runs to completion if and only if every node of the old table is in bucket 0. |
| `TtlHeap.FrontIsLeast` | src/server.cpp:146-200 | In a heap-ordered array the front item is least. |
| `TtlHeap.Timers.BubbleUp` | src/server.cpp:150-161 | Restores order and back-references around an item that is too small, with the same items. |
| `TtlHeap.Timers.BubbleDown` | src/server.cpp:163-192 | The same around an item that is too big. |
| `TtlHeap.DeadlinesChange` | src/server.cpp:264-288 | What adding, changing or removing one item means for the map from entry to deadline. |
| `TtlHeap.Timers.SetTtl` | src/server.cpp:264-288 | Order and back-references hold again, and the map from entry to deadline loses the entry or has it at now + ttl; the other entries keep knowing their place. |
| `Database.DataMinus` | src/server.cpp:400-410 | Entries that leave take their keys with them, and nothing else. |
| `Database.Db.QueuedIsUnreachable` | src/server.cpp:312-328 | An entry queued for destruction is in neither hash table and has no timer. |
| `Database.Db.Get` | src/server.cpp:349-363 | The value under the key, exactly when there is one; the data stay. |
| `Database.Db.Set` | src/server.cpp:372-390 | The data become the old ones with the key at the value, for new and for existing keys; the call returns exactly when the key tables let it. |
| `Database.Db.OnSet` | src/server.cpp:472-562 | zadd, zrem and zscore: the set of the key, found or for zadd created, becomes what the operation makes of it; a key of another type is reported and left alone, and so are all other keys. The call returns exactly when the key tables and the name tables of that set let it. |
| `Database.Db.Expire` | src/server.cpp:889-906 | The deadline of the key's entry, and no other, is set or removed; nothing happens without such a key. |
| `Database.Db.Ttl` | src/server.cpp:911-929 | -2 without the key, -1 without a timer, else the remaining milliseconds. |
| `Database.Db.ExpireThenTtl` | src/server.cpp:889-929 | The time to live that was set is the one that is told, less the time since, and 0 when it is over. |
| `Database.Db.EntryDel` | src/server.cpp:312-328 | The entry's timer goes and the entry is destroyed, by a thread exactly when it is a set of more than 10000 names; all invariants hold again. |
| `Database.Db.Del` | src/server.cpp:400-410 | The data lose exactly the key, its entry is given up and its timer removed exactly when there was one, and no other deadline changes. |
| `Database.Db.PopEntry` | src/server.cpp:967-970 | The assert of the expiry loop: the entry of a timer is found in the database, and leaves it. |
| `Database.Db.ProcessTtl` | src/server.cpp:963-977 | One pass removes due entries in nondecreasing order of deadline, at most 2001; after fewer, nothing due is left; all other entries and deadlines stay. A pass of the code as written that does not return is stuck before a due entry, in tables that do not let it go on. |
| `Commands.DoKeys` | src/server.cpp:445-467 | The reply is an array of strings whose declared count is the number of strings in it: each key exactly once, over both tables. |
| `Commands.SetValueFits` | src/server.cpp:412-443 | A value that arrives in an accepted set request has at most 4077 bytes. |
| `Commands.GetReplyFits` | src/server.cpp:698-701 | The reply to get for such a value passes the assert of do_get and is not replaced by an error. |
| `Commands.DoGet` | src/server.cpp:349-363 | The reply is the stored string, and nil exactly without the key; the assert on its size holds. |
| `Commands.ApplyDel` | src/server.cpp:400-410 | The reply is 1 or 0 as the key was there or not; key and deadline go, and nothing else changes. |
| `Commands.ApplyExpire` | src/server.cpp:889-906 | The reply is 1 or 0 as the key was there or not, and only its deadline changes. |
| `Commands.ApplyOnSet` | src/server.cpp:472-562 | The replies of zadd, zrem and zscore from the data before and after: how many names have come, or gone, or the score of the name; nil without the key, and for a key of another type error 3 with nothing changed. All other keys stay. |
| `Commands.SetThenZadd` | src/server.cpp:372-503 | A key made by set is no set: zadd answers error 3 and leaves the string alone. |
| `Commands.Pass` | src/server.cpp:947-977 | By key: the removed keys are different, due, in nondecreasing order of deadline, at most 2001, and none that stays is due earlier than one of them; if fewer go, none that stays is due; nothing else changes. |
| `Commands.Run` | src/server.cpp:312-410 | Every run of get, set, del, zadd, zrem, zscore, expire and timer passes from an empty key space follows a trace of data and deadlines in which each operation makes its step, timer passes included; index, timers and destruction queue agree throughout. With the intended loop every call returns; a run of the code as written that ends early ends in an operation that hangs by the state before it, and none does while fewer than 31 keys are live and fewer than 31 names in every set. |
| `Commands.HangingZadd` | src/server.cpp:499-503 | 31 names can be added to the set of one key; with the 32nd the server does not return. |
| `KeySpace.FewKeysReturn` | src/hashtable.cpp:69-124 | With at most 31 keys, and at most 31 names in the set at hand, those to be added included, no operation and no timer pass of the code as written hangs. |
| `KeySpace.ThirtySecondKey` | src/hashtable.cpp:69-124 | The operation that brings in the 32nd key hangs if and only if some key does not hash to a multiple of four. |
| `KeySpace.ThirtySecondMember` | src/server.cpp:499-503 | The zadd that brings in the 32nd name of a set hangs, however few keys there are, if and only if some name does not hash to a multiple of four. |
| `KeySpace.SameStart` | src/server.cpp:963-977 | When no two keys have the same deadline, two passes take the same keys in the same order. |
| `KeySpace.HangsExactly` | src/server.cpp:963-977 | An operation of the code as written, or a timer pass when no two keys have the same deadline, hangs if and only if no state is a step away. |
| `IdleList.Detach` | src/list.h:13-18 | The ring without that node, linked both ways. |
| `IdleList.InsertBefore` | src/list.h:20-26 | The ring with the node before its head, linked both ways. |
| `IdleList.Conns.Accept` | src/server.cpp:800-827 | The new connection is last in the ring and in the table; each live connection is in both once, in order of time. |
| `IdleList.Conns.Touch` | src/server.cpp:833-840 | The connection moves to the end and the others keep their order. |
| `IdleList.Conns.Done` | src/server.cpp:934-939 | The connection leaves the table and the ring, no other does. |
| `IdleList.ExactlyDue` | src/server.cpp:951-961 | Since the ring is in order of time, stopping at the first connection that is not overdue misses none. |
| `IdleList.Conns.ProcessIdle` | src/server.cpp:951-961 | A pass closes exactly the overdue connections and keeps the others in order. |
| `PollTimeout.NextIsLeast` | src/server.cpp:854-874 | The deadline used is the least of the two; the value for "none" results exactly when no deadline is below it. |
| `PollTimeout.SleepThenFire` | src/server.cpp:854-884 | After sleeping the whole timeout the nearest timer passes the firing test if and only if it was less than 2^31 ms away. |
| `PollTimeout.NotTooLong` | src/server.cpp:854-884 | The timeout does not go past either deadline and is 0 when one has passed, unless the clock is within ten seconds of the value for "none"; without timers it is ten seconds. |
| `PollTimeout.LongTtlNeverTimesOut` | src/server.cpp:1054-1054 | A wait of exactly 2^31 ms becomes a negative timeout. |
| `EventLoop.NextTimeout` | src/server.cpp:854-884 | The timeout is computed from the first connection of the list and the front of the heap, and goes past neither of their deadlines. |
| `EventLoop.ProcessTimers` | src/server.cpp:947-977 | A pass removes the first connection and the first key if they are due, and nothing more than a millisecond before its time. |
| `EventLoop.SleepAndPass` | src/server.cpp:947-977 | If the nearest timer of both is less than 2^31 ms away, a pass at or after the end of the sleep closes a connection or removes a key. |
| `Request.FewStrings` | src/server.cpp:412-443 | A command that fits a message has at most 1023 strings. |
| `Request.ParseOfBody` | src/server.cpp:412-443 | Every command that fits a message parses back to itself. |
| `Request.BodyOfParse` | src/server.cpp:412-443 | Every accepted body is the encoding of what it parses to, byte for byte. |
| `Request.ParseReq` | src/server.cpp:412-443 | The loop accepts exactly the bodies the reference decoder accepts, with the same strings. |
| `Request.SendReq` | src/client.cpp:62-86 | Nothing is sent for a body over 4096 bytes, otherwise exactly the framed body. |
| `Wire.FourBytes` | src/server.cpp:417-429 | A length on the wire has its lowest byte first. |
| `Response.RoundTrip` | src/utils.h:92-131 | Any serialized value followed by anything decodes to itself and to exactly its bytes, nested arrays included. |
| `Response.PrefixFree` | src/utils.h:92-131 | No serialized value is a prefix of another one. |
| `Response.TagOf` | src/utils.h:92-131 | The first byte of a serialized value tells its kind, 0 to 5. |
| `Response.OnResponse` | src/client.cpp:88-180 | Wherever the reference decoder finds a value, on_response consumes exactly its bytes, in its 32-bit arithmetic. |
| `Session.FlushCause` | src/server.cpp:206-241 | A reply is left unsent only by a write that would block or failed. |
| `Session.RoomAfter` | src/server.cpp:660-740 | A full read buffer holds a complete frame or ends the connection: a connection that waits has room and no complete frame, one with a blocked reply has room. |
| `Session.CapDecodes` | src/server.cpp:696-701 | A client decodes what was written, or, if that would not fit, error 2 with its text. |
| `Session.RefusedIsUnfit` | src/server.cpp:670-695 | What is refused is exactly a frame of more than 4096 bytes or one whose body is the encoding of no command. |
| `Session.IoCaused` | src/server.cpp:833-848 | For any answers of the kernel: a reply stays unsent only when a write would block, the connection ends only by a failed call, the end of the input or a frame that is the encoding of no command, and a connection that waited and waits again has read all there was. |
| `Session.RequestServed` | src/server.cpp:660-740 | A connection that waits with an empty buffer and reads the frame of a command executes it once on the database it finds, and ends only by a failed write. |
| `Session.WaitsBare` | src/server.cpp:833-848 | A connection left waiting holds no complete request if and only if it held none before, or it was waiting and the kernel had something for it. |
| `Session.IoChained` | src/server.cpp:833-848 | The requests served in a wake-up take the database found to the database left, one after another. |
| `Session.StalledRequest` | src/server.cpp:833-848 | Two requests in one read with a blocked write, then a wake-up that finishes the write: the second request stays in the buffer, whatever the server does with the first. |
| `Connection.Conn.StateRes` | src/server.cpp:206-241 | Sent bytes and unsent buffer stay the framed replies, and the write buffer ends as `Flush` says. |
| `Connection.Conn.Answer` | src/server.cpp:690-732 | The parsed request is executed on the database, its reply framed into the write buffer and flushed, and its bytes leave the read buffer. |
| `Connection.Conn.TryOneRequest` | src/server.cpp:660-732 | One turn on the buffers is one turn of `Requests` on values; received bytes stay executed frames and read buffer. |
| `Connection.Conn.TryFill` | src/server.cpp:738-780 | The assert that the read buffer has room holds on entry, and one turn on the buffers is one turn of `Receive` on values. |
| `Connection.Conn.ConnectionIo` | src/server.cpp:833-848 | For any answers of the kernel the buffers, the database and the served requests become what `Io` says; the bytes received are those the kernel had, in order, and the others are still there; received bytes are the executed frames and the read buffer, replies are the sent bytes and the unsent buffer. |
| `Connection.Conn.WakeUp` | src/server.cpp:833-848 | The same as causes for every way of stopping, as a chain of executed requests on the database, and as the exact condition for having served every complete request received: none was buffered before, or the connection could read. |
| `Connection.ExecutedIsPrefix` | src/server.cpp:660-785 | The executed requests are the first frames of every continuation of the stream. |
| `Connection.SentIsPrefix` | src/server.cpp:206-241 | What a client can decode of the sent bytes is all replies in order, or all but the last while that is unsent in part; in STATE_RES wbuf_sent < wbuf_size <= 4096. |
| `Connection.Serve` | src/server.cpp:1070-1081 | Over every sequence of wake-ups connection_io never meets STATE_END, executed requests are a prefix of the stream, and at most one reply is outstanding. |
| `Connection.NoneUnfit` | src/server.cpp:660-695 | Of a client that sends commands, in pieces of any size, nothing is refused. |
| `Connection.ServeAll` | src/server.cpp:833-848 | A client sends commands and no call fails: the connection does not end, and unless a write blocks, all commands are executed in order and all replies sent. |
| `Connection.Stall` | src/server.cpp:833-848 | The run of the stalled request on the real buffers: the connection waits for input and has executed one of the two requests it received. |
| `Connection.ServeAlone` | src/server.cpp:1070-1081 | The requests served by a connection that is alone with the database are all that ever happened to it. |
| `Dialogue.CmdIsExactly` | src/server.cpp:638-645 | A command word matches a name exactly when it has its letters in either case, and then ends or has a zero byte. |
| `Dialogue.DoRequest` | src/server.cpp:637-658 | For get, set and del on the real key space, the handlers change the data and answer as the dispatcher on plain maps does. |
| `Dialogue.ClientReads` | src/server.cpp:637-658 | A client reads the replies to its commands, executed one after another on the data, as far as replies have arrived, for every way requests and replies are split. |
| `Dialogue.SetThenGet` | src/server.cpp:637-658 | Of set k v and get k it decodes nil and v. |
| `Dialogue.SetDelGet` | src/server.cpp:637-658 | Of set k v, del k and get k it decodes nil, 1 and nil. |
| `Dialogue.Converse` | src/server.cpp:637-658 | The same replies for the whole life of a connection, for any answers of the kernel. |
| `ThreadPool.StepSound` | src/thread_pool.cpp:9-55 | Every step of every thread keeps mutual exclusion, the order of jobs and enough awake workers for the queue. |
| `ThreadPool.EveryRun` | src/thread_pool.cpp:9-72 | In every interleaving: while a worker sleeps, awake idle workers number at least the queue, but for one job pushed and not yet signalled; jobs are taken in the order in which their callers got the mutex, once each; the job of every call is with its caller, queued, held by one worker or finished. |
| `ThreadPool.RunIsBounded` | src/thread_pool.cpp:9-55 | The length of a run is bounded by its calls and spurious wake-ups, so the pool comes to rest when left alone. |
| `ThreadPool.AllJobsFinish` | src/thread_pool.cpp:9-72 | A pool that can do nothing more has finished the job of every call, each once, and started them in the order in which their callers got the mutex. |
| `ThreadPool.JobIsServed` | src/thread_pool.cpp:9-55 | With a job queued and the mutex free, an idle worker can take the mutex at once or all workers are busy. |

## Left out

- The sorted set of an entry: in the key space it is the value it stands for, its scores and its name tables; `ZSets` shows that the heap structures follow exactly that value. do_zquery in a run and the argument checks of the z-commands would only add easy members.
- do_request and cmd_is: the connection takes the dispatcher as a function on a database, so it does not model a command that never returns; `Dialogue` fixes it for get, set and del.
- Widths: depth and count are not bounded by 32 bits, table sizes not by 64, and deadlines are sums without wrap-around.
- Floating point: scores are real numbers and their eight bytes on the wire come from an opaque function; NaN is rejected before any of this code (src/server.cpp:453).
- strtod and strtoll: the commands get numbers.
- Sockets, poll, accept, clocks, errno: only their outcomes, as arguments.
- malloc, free, container_of, zset_dispose, hm_destroy, entry_destroy: who can reach a node is modelled, memory is not.
- h_scan: the callback is applied to the scanned nodes after the scan, not during it.
- Printing, the client's query, read_res and main, and the unused handlers and g_map of the server.
- `Request.SendReq`: for commands of 4 GiB or more the length wraps around in the code; they are excluded.
- `Response.OnResponse`: says how many bytes are consumed only where the data start with a well formed value, and is stated for data under 2 GiB, far above any message.
- `Connection.Conn.ConnectionIo`: what the kernel has left after a wake-up is not carried over to the next one by the model; the answers of each wake-up are arbitrary.
- `Commands.Run`: which of several keys with the same deadline a timer pass takes first depends on the layout of the heap; the trace allows any order among them.
