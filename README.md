# YCSB state machine over Ratis and MapDB — a Dafny model

`YCSBStateMachine` is the Ratis state machine of a replicated YCSB key-value
store. It keeps its data in a MapDB map and relies on its Ratis base class
to record the last-applied log position `(term, index)`. This project models
the deterministic part of the class:

- `initialize` builds the MapDB file path and map name from the part of the
  server's string before its first `':'`.
- `load` picks the log index to recover from the latest snapshot.
- `query` is the read-only path. Only READ is served.
- `applyTransaction` is the mutating path. It records the entry's position,
  then handles CREATE or UPDATE and rejects every other type.

The MapDB map becomes a `map<string, string>`. Its `getValue` yields `""`
for an absent key, so a key stored with the value `""` reads as "no record".
The last-applied position becomes a plain field. Java `long` terms and
indices are the `Long` newtype. The model never does arithmetic on them.

Modules:

- `Messages`: the decoded records. These are a YCSB message, a CRUD message,
  a log entry that carries both decoded views, replies, and snapshot info.
  A null message is `None`.
- `StringSplit`: the behaviour of Java's `String.split(":")` that line 39
  relies on.
- `StateMachine`: the specification as values. It holds `Load`, `Query`,
  `Apply`, `Replay` (the apply path run over entries in log order) and
  `StoreLocation`, with the lemmas about them.
- `YcsbMachine`: the class `YcsbStateMachine`. Its fields are `store` and
  `lastApplied`. `Query` only reads them. `ApplyTransaction` assigns them
  in place. Each method is proved against its `StateMachine` function.

Things the code does that the model keeps:

- The CREATE key and value come from the YCSB message decoded from the bytes
  of the whole log entry (line 128). The UPDATE key and value, and the
  dispatch type, come from the CRUD message decoded from the entry's log data
  (line 138). `LogEntry` carries both views.
- The position is recorded (line 143) before the null check on the CRUD
  message (line 147). So an entry whose CRUD message is null still advances
  the position and then throws. A CREATE whose YCSB message is null
  does the same (line 149).
- In the CREATE branch, `ycsbReply` (line 151) is computed and never returned.
  The reply is always the plain text "Operation CREATE successfully performed!".
- `split(":")` on a string made of nothing but colons gives an empty array.
  In that case `svSplitted[0]` throws. `StoreLocation` returns `None` there.
- A non-null message whose type is null throws at the `switch` (lines 91 and
  147). On the apply path this happens after the position has been recorded.
- The position read at lines 107-108 is used only for logging, so a query's
  reply does not depend on it (`QueryIgnoresPosition`).

## Model

| member | source | states |
|---|---|---|
| `StringSplit.SepPosition` | src/main/java/mapdb/ycsb/YCSBStateMachine.java:39 | the result is the index of the first ':' or the length of the string: no earlier character is the separator, and the character there is one |
| `StringSplit.Pieces` | src/main/java/mapdb/ycsb/YCSBStateMachine.java:39 | cutting at every separator gives at least one piece |
| `StringSplit.PiecesJoin` | src/main/java/mapdb/ycsb/YCSBStateMachine.java:39 | joining the pieces with the separator gives back the input |
| `StringSplit.PiecesHaveNoSep` | src/main/java/mapdb/ycsb/YCSBStateMachine.java:39 | no piece contains the separator |
| `StringSplit.FirstPiece` | src/main/java/mapdb/ycsb/YCSBStateMachine.java:39 | the first piece is the input up to its first separator |
| `StringSplit.PiecesAllEmpty` | src/main/java/mapdb/ycsb/YCSBStateMachine.java:39 | every piece is empty iff every character is a separator |
| `StringSplit.DropTrailingEmpty` | src/main/java/mapdb/ycsb/YCSBStateMachine.java:39 | the result is a prefix of the pieces that does not end in an empty piece; only empty pieces are dropped |
| `StringSplit.Split` | src/main/java/mapdb/ycsb/YCSBStateMachine.java:39 | split(":") is empty iff the string is non-empty and all colons; otherwise element 0 is the part before the first colon; no element contains a colon |
| `StateMachine.StoreLocation` | src/main/java/mapdb/ycsb/YCSBStateMachine.java:38-41 | fails (the index-out-of-bounds case) iff the server string is non-empty and all colons; otherwise, with prefix the part before the first ':', the path is "src/main/java/mapdb/files/" + prefix + ".db" and the map name is "map" + prefix |
| `StateMachine.Load` | src/main/java/mapdb/ycsb/YCSBStateMachine.java:51-73 | no snapshot gives INVALID_LOG_INDEX (-1); a snapshot whose file is missing gives INVALID_LOG_INDEX; otherwise the index of the file's (term, index) |
| `StateMachine.GetValue` | src/main/java/mapdb/ycsb/YCSBStateMachine.java:93-95 | reading a key yields "" exactly when there is no record (the key is absent or holds ""), and otherwise the stored value |
| `StateMachine.Query` | src/main/java/mapdb/ycsb/YCSBStateMachine.java:84-115 | a null request, or one whose type is null, throws; any other non-READ request gives "Invalid request type!" whatever the store holds; a READ gives an OK read response with the stored value when the key holds a non-empty value, else the error "There is no record for key: " + key. The function returns no state, so a query changes nothing |
| `StateMachine.QueryIgnoresPosition` | src/main/java/mapdb/ycsb/YCSBStateMachine.java:107-110 | the query reply does not depend on the last-applied position |
| `StateMachine.Performed` | src/main/java/mapdb/ycsb/YCSBStateMachine.java:166 | the success reply "Operation " + name + " successfully performed!": the type name can be read back from it, and it is never "Invalid request type!" |
| `StateMachine.Apply` | src/main/java/mapdb/ycsb/YCSBStateMachine.java:125-174 | the position becomes (entry.term, entry.index) on every modelled path, rejected ones and the throws at lines 147-149 included; CREATE stores the whole-entry message's key -> value, UPDATE the log-data message's key -> value, with replies "Operation CREATE/UPDATE successfully performed!"; another type leaves the store unchanged and gives "Invalid request type!"; a null message, or a log-data message whose type is null, leaves the store unchanged and throws |
| `StateMachine.ApplyChangesOnlyWritten` | src/main/java/mapdb/ycsb/YCSBStateMachine.java:147-162 | the store changes only at the key the entry writes, and only when it writes one; the reply is a success text iff the entry writes a key |
| `StateMachine.ReadAfterWrite` | src/main/java/mapdb/ycsb/YCSBStateMachine.java:92-98 | a READ of the key an entry just wrote returns that value, or the no-record error when the value written is "" |
| `StateMachine.Replay` | src/main/java/mapdb/ycsb/YCSBStateMachine.java:125-174 | `applyTransaction` called on each entry in log order: with no entries the state is unchanged, and the keys present afterwards are exactly those present before together with those written by some entry (none is lost, every written one is present) |
| `StateMachine.ReplayConcat` | src/main/java/mapdb/ycsb/YCSBStateMachine.java:125-174 | applying a log in two parts gives the same state as applying it whole; a general fact about the fold, used to prove `LastWriteWins` |
| `StateMachine.ReplayPosition` | src/main/java/mapdb/ycsb/YCSBStateMachine.java:141-143 | after a non-empty run of entries, the position is the last entry's, whatever its type |
| `StateMachine.ReplayUntouched` | src/main/java/mapdb/ycsb/YCSBStateMachine.java:147-162 | a key that no entry writes keeps its presence and value across a replay |
| `StateMachine.LastWriteWins` | src/main/java/mapdb/ycsb/YCSBStateMachine.java:148-157 | after a replay, a key holds the value of the last entry that wrote it |
| `YcsbMachine.YcsbStateMachine.constructor` | src/main/java/mapdb/ycsb/YCSBStateMachine.java:34-41 | the state `initialize` leaves: the opened map's contents and the base class's starting position |
| `YcsbMachine.YcsbStateMachine.Query` | src/main/java/mapdb/ycsb/YCSBStateMachine.java:84-115 | the reply is `StateMachine.Query` of the object's state; there is no modifies clause, so neither the store nor the position changes |
| `YcsbMachine.YcsbStateMachine.ApplyTransaction` | src/main/java/mapdb/ycsb/YCSBStateMachine.java:125-174 | the position is the entry's (term, index); the new store and the reply are those of `StateMachine.Apply` on the old state |

## Left out

- Ratis consensus is not modelled: replication, roles and the checks in the base class. `updateLastAppliedTermIndex` is a plain assignment here. Any monotonicity check is in the library and is not part of this model.
- The base class's initial last-applied position is not visible, so the constructor takes it as a parameter.
- MapDB's on-disk format, durability and its `putValue`/`updateValue`/`getValue` internals are left out. They are treated as map writes and a map read that yields "" for an absent key. Opening the MapDB file named by `StoreLocation` is not modelled either: the constructor takes the map's contents.
- Deserializing `YCSBMessage`, `CrudMessage` and the Ratis log entry is not modelled. The decoded messages are given, and a null one is `None`. The decoders are assumed to return a message or null and never to throw: a throw at line 128 or 138 would come before line 143, and the position would not advance. The position advances on the throwing paths at lines 147-149 only. A message whose key or value is null is not modelled either.
- Snapshot file I/O: `snapshotFile.exists()` is the `fileExists` flag. The file name is not shown, so `getTermIndexFromSnapshotFile` is not modelled. Its result is the `fileTermIndex` field, and any exception it might throw on a malformed name is left out.
- `CompletableFuture` wrapping is left out: the replies are plain values. All logging is left out too, including the leader-only log at line 169. It has no effect on state or replies.
- `reinitialize` only calls `load` and discards the result (line 47). `initialize` discards `load`'s result as well (line 36). So only `Load` itself is modelled.
- The success reply at line 166 uses `requestMsg.getType().toString()`. The CrudMessage enum is not part of this model, so the model assumes the default `toString()`, which gives "CREATE" and "UPDATE".
- An exception thrown by `applyTransaction` is the reply `NullPointer` here. `Replay` then goes on to the next entry. So `Replay`, `ReplayPosition`, `ReplayUntouched` and `LastWriteWins` describe repeated calls. What the caller does after an exception, such as stopping the replica, is not modelled.
- The position returned by `getLastAppliedTermIndex()` is modelled as never null. If it were null, a READ would throw at line 107. The base class is not part of this model.
- Each call is modelled as atomic. Ratis may run `query` while `applyTransaction` runs, but `query` reads the map only once (line 93), so no interleaving inside a call is modelled.
- Only the type names the code tests (READ; CREATE and UPDATE) are modelled. Each enum's other constants are one catch-all constructor.
