/**
 * The YCSB state machine as values: a MapDB map from keys to values, and the
 * last-applied log position that Ratis keeps for it. `Query` is the read-only
 * path, `Apply` the path that committed log entries take, `Replay` the apply
 * path run over a sequence of entries in log order, and `Load` the recovery of
 * a log index from the latest snapshot.
 */
module StateMachine {
  import opened Wrappers
  import opened Messages
  import opened StringSplit

  /** MapDB's map. */
  type Store = map<string, string>

  datatype MachineState = MachineState(store: Store, lastApplied: TermIndex)

  /** Ratis's `RaftLog.INVALID_LOG_INDEX`. */
  const InvalidLogIndex: Long := -1

  const InvalidRequestType := "Invalid request type!"
  const NoRecordFor := "There is no record for key: "
  const DbDirectory := "src/main/java/mapdb/files/"

  /** MapDB's `getValue`: the stored value, or "" for an absent key, so "" reads as "no record". */
  function GetValue(store: Store, key: string): (v: string)
    ensures v == "" <==> !HasRecord(store, key)
    ensures HasRecord(store, key) ==> v == store[key]
  {
    if key in store then store[key] else ""
  }

  /** A READ of `key` finds a record: the key is present with a non-empty value. */
  predicate HasRecord(store: Store, key: string)
  {
    key in store && store[key] != ""
  }

  // ---------------------------------------------------------------- initialize

  /** The MapDB file and map that a server opens. */
  datatype StoreNames = StoreNames(dbPath: string, mapName: string)

  /**
   * The names built from `server.toString()`: its part before the first ':'
   * goes into both. None stands for the ArrayIndexOutOfBoundsException that
   * `split(":")[0]` throws when the string is nothing but colons.
   */
  function StoreLocation(server: string): (r: Option<StoreNames>)
    ensures r.None? <==> server != "" && forall j :: 0 <= j < |server| ==> server[j] == ':'
    ensures r.Some? ==>
      var prefix := server[..SepPosition(server, ':')];
      r.value == StoreNames(DbDirectory + prefix + ".db", "map" + prefix)
  {
    var parts := Split(server, ':');
    if |parts| == 0 then None
    else Some(StoreNames(DbDirectory + parts[0] + ".db", "map" + parts[0]))
  }

  // ---------------------------------------------------------------- load

  /**
   * The log index recovered from the latest snapshot: the invalid index when
   * there is no snapshot or its file is missing, else the index in the file's
   * (term, index).
   */
  function Load(snapshot: Option<SnapshotInfo>): (index: Long)
    ensures snapshot.None? ==> index == InvalidLogIndex
    ensures snapshot.Some? && !snapshot.value.fileExists ==> index == InvalidLogIndex
    ensures snapshot.Some? && snapshot.value.fileExists ==> index == snapshot.value.fileTermIndex.index
  {
    match snapshot
    case None => InvalidLogIndex
    case Some(info) => if !info.fileExists then InvalidLogIndex else info.fileTermIndex.index
  }

  // ---------------------------------------------------------------- query

  /**
   * The reply to a query. Only READ is served: it yields the stored value, or
   * a "no record" error when there is no non-empty value for the key; every
   * other type is refused. A null request, or one whose type is null, throws
   * at the switch. A query yields no new state.
   */
  function Query(st: MachineState, request: Option<YcsbMessage>): (r: Reply)
    ensures r.NullPointer? <==> request.None? || request.value.requestType == NullYcsbType
    ensures request.Some? && request.value.requestType == OtherYcsbType ==> r == Text(InvalidRequestType)
    ensures request.Some? && request.value.requestType == Read ==>
      var key := request.value.key;
      if HasRecord(st.store, key) then r == Serialized(ReadReply(st.store[key]))
      else r == Serialized(ErrorReply(NoRecordFor + key))
  {
    match request
    case None => NullPointer
    case Some(msg) =>
      match msg.requestType
      case Read =>
        var requestedValue := GetValue(st.store, msg.key);
        if requestedValue == "" then Serialized(ErrorReply(NoRecordFor + msg.key))
        else Serialized(ReadReply(requestedValue))
      case OtherYcsbType => Text(InvalidRequestType)
      case NullYcsbType => NullPointer
  }

  /**
   * A query depends on the store only; the log position, which `query` reads
   * only for its log line, plays no part. This holds by
   * construction of `Query` and records that the position is left out of it.
   */
  lemma QueryIgnoresPosition(st: MachineState, position: TermIndex, request: Option<YcsbMessage>)
    ensures Query(st, request) == Query(MachineState(st.store, position), request)
  {
  }

  // ---------------------------------------------------------------- apply

  datatype Transition = Transition(next: MachineState, reply: Reply)

  /**
   * The success reply for an operation type's name: the name can be read back
   * from it, and it is never the rejection text.
   */
  function Performed(name: string): (r: string)
    ensures |r| == |name| + 34 && r[10..10 + |name|] == name
    ensures r != InvalidRequestType
  {
    var r := "Operation " + name + " successfully performed!";
    assert r[0] == 'O' != InvalidRequestType[0];
    r
  }

  /**
   * The key and value that applying `entry` stores: the whole-entry message's
   * for CREATE, the log-data message's for UPDATE, none otherwise or when the
   * message the branch uses is null.
   */
  function Written(entry: LogEntry): (w: Option<(string, string)>)
  {
    match entry.logDataMessage
    case None => None
    case Some(requestMsg) =>
      match requestMsg.requestType
      case Create =>
        if entry.entryMessage.None? then None
        else Some((entry.entryMessage.value.key, entry.entryMessage.value.value))
      case Update => Some((requestMsg.key, requestMsg.value))
      case OtherCrudType => None
      case NullCrudType => None
  }

  /**
   * Applying a committed entry. The position becomes the entry's (term, index)
   * whatever happens next, rejected and failing entries included. CREATE
   * stores the whole-entry message's key and value, UPDATE the log-data
   * message's; no other key changes, and any other type leaves the store as it is.
   */
  function Apply(st: MachineState, entry: LogEntry): (t: Transition)
    ensures t.next.lastApplied == TermIndex(entry.term, entry.index)
    ensures entry.logDataMessage.None? || entry.logDataMessage.value.requestType == NullCrudType ==>
      t.next.store == st.store && t.reply == NullPointer
    ensures entry.logDataMessage.Some? && entry.logDataMessage.value.requestType == Create ==>
      match entry.entryMessage
      case None => t.next.store == st.store && t.reply == NullPointer
      case Some(ycsbRequest) =>
        t.next.store == st.store[ycsbRequest.key := ycsbRequest.value]
        && t.reply == Text(Performed("CREATE"))
    ensures entry.logDataMessage.Some? && entry.logDataMessage.value.requestType == Update ==>
      var requestMsg := entry.logDataMessage.value;
      t.next.store == st.store[requestMsg.key := requestMsg.value]
      && t.reply == Text(Performed("UPDATE"))
    ensures entry.logDataMessage.Some? && entry.logDataMessage.value.requestType == OtherCrudType ==>
      t.next.store == st.store && t.reply == Text(InvalidRequestType)
  {
    var position := TermIndex(entry.term, entry.index);
    match entry.logDataMessage
    case None => Transition(MachineState(st.store, position), NullPointer)
    case Some(requestMsg) =>
      match requestMsg.requestType
      case Create =>
        if entry.entryMessage.None? then
          Transition(MachineState(st.store, position), NullPointer)
        else
          var ycsbRequest := entry.entryMessage.value;
          Transition(MachineState(st.store[ycsbRequest.key := ycsbRequest.value], position),
                     Text(Performed("CREATE")))
      case Update =>
        Transition(MachineState(st.store[requestMsg.key := requestMsg.value], position),
                   Text(Performed("UPDATE")))
      case OtherCrudType =>
        Transition(MachineState(st.store, position), Text(InvalidRequestType))
      case NullCrudType =>
        Transition(MachineState(st.store, position), NullPointer)
  }

  /** An entry changes the store exactly at the key it writes, and only when it writes one. */
  lemma ApplyChangesOnlyWritten(st: MachineState, entry: LogEntry)
    ensures Written(entry).None? ==> Apply(st, entry).next.store == st.store
    ensures Written(entry).Some? ==>
      var (key, value) := Written(entry).value;
      Apply(st, entry).next.store == st.store[key := value]
    ensures Written(entry).Some?
            <==> Apply(st, entry).reply.Text? && Apply(st, entry).reply.text != InvalidRequestType
  {
  }

  /** Read after write: a READ of the key an entry has just written sees that value, unless it is "". */
  lemma ReadAfterWrite(st: MachineState, entry: LogEntry, request: YcsbMessage)
    requires Written(entry).Some? && request.requestType == Read && request.key == Written(entry).value.0
    ensures var value := Written(entry).value.1;
      Query(Apply(st, entry).next, Some(request))
      == if value == "" then Serialized(ErrorReply(NoRecordFor + request.key))
         else Serialized(ReadReply(value))
  {
    ApplyChangesOnlyWritten(st, entry);
  }

  // ---------------------------------------------------------------- replay

  /** The keys that some entry of `entries` writes. */
  function WrittenKeys(entries: seq<LogEntry>): (keys: set<string>)
  {
    set i | 0 <= i < |entries| && Written(entries[i]).Some? :: Written(entries[i]).value.0
  }

  /**
   * The state after `applyTransaction` has been called on each of `entries`
   * in turn, in log order. An entry that throws still leaves its transition
   * (position advanced, store as it was), and the next call goes ahead: this
   * describes repeated calls, whatever the caller does with the exception.
   * The keys present afterwards are exactly those present before together
   * with those written: no key is lost, and every written key is present.
   */
  function Replay(st: MachineState, entries: seq<LogEntry>): (r: MachineState)
    ensures r.store.Keys == st.store.Keys + WrittenKeys(entries)
    ensures entries == [] ==> r == st
    decreases |entries|
  {
    if entries == [] then st else Replay(Apply(st, entries[0]).next, entries[1..])
  }

  /**
   * Applying a log in two parts is applying it whole. This holds of any
   * left fold; it is here to split a replay where `LastWriteWins` needs it.
   */
  lemma {:induction false} ReplayConcat(st: MachineState, first: seq<LogEntry>, second: seq<LogEntry>)
    ensures Replay(st, first + second) == Replay(Replay(st, first), second)
    decreases |first|
  {
    if first != [] {
      var whole := first + second;
      assert whole[0] == first[0] && whole[1..] == first[1..] + second;
      var next := Apply(st, first[0]).next;
      assert Replay(st, whole) == Replay(next, first[1..] + second);
      assert Replay(st, first) == Replay(next, first[1..]);
      ReplayConcat(next, first[1..], second);
    } else {
      assert first + second == second;
    }
  }

  /** After a non-empty run of entries, the position is the last entry's, whatever the entries were. */
  lemma {:induction false} ReplayPosition(st: MachineState, entries: seq<LogEntry>)
    requires |entries| > 0
    ensures var last := entries[|entries| - 1];
      Replay(st, entries).lastApplied == TermIndex(last.term, last.index)
    decreases |entries|
  {
    if |entries| > 1 {
      ReplayPosition(Apply(st, entries[0]).next, entries[1..]);
    }
  }

  /** A key that no entry writes keeps its value (and its presence) across a replay. */
  lemma {:induction false} ReplayUntouched(st: MachineState, entries: seq<LogEntry>, key: string)
    requires forall i :: 0 <= i < |entries| ==> Written(entries[i]).None? || Written(entries[i]).value.0 != key
    ensures key in Replay(st, entries).store <==> key in st.store
    ensures key in st.store ==> Replay(st, entries).store[key] == st.store[key]
    decreases |entries|
  {
    if entries != [] {
      ApplyChangesOnlyWritten(st, entries[0]);
      ReplayUntouched(Apply(st, entries[0]).next, entries[1..], key);
    }
  }

  /** The last write to a key wins: after a replay the key holds the value of the last entry that wrote it. */
  lemma LastWriteWins(st: MachineState, entries: seq<LogEntry>, i: nat, key: string, value: string)
    requires i < |entries| && Written(entries[i]) == Some((key, value))
    requires forall j :: i < j < |entries| ==> Written(entries[j]).None? || Written(entries[j]).value.0 != key
    ensures key in Replay(st, entries).store && Replay(st, entries).store[key] == value
  {
    var before, after := entries[..i], entries[i + 1..];
    assert entries == before + [entries[i]] + after;
    ReplayConcat(st, before + [entries[i]], after);
    ReplayConcat(st, before, [entries[i]]);
    var mid := Replay(st, before);
    assert Replay(mid, [entries[i]]) == Apply(mid, entries[i]).next;
    ApplyChangesOnlyWritten(mid, entries[i]);
    forall j | 0 <= j < |after|
      ensures Written(after[j]).None? || Written(after[j]).value.0 != key
    {
      assert after[j] == entries[i + 1 + j];
    }
    ReplayUntouched(Apply(mid, entries[i]).next, after, key);
  }
}
