/**
 * The state machine object: the MapDB map it serves (`mapServer`) and the
 * last-applied (term, index) that its Ratis base class records. `Query` only
 * reads them; `ApplyTransaction` updates both in place.
 */
module YcsbMachine {
  import opened Wrappers
  import opened Messages
  import StateMachine

  class YcsbStateMachine {
    var store: StateMachine.Store
    var lastApplied: TermIndex

    /** The object's state as a value, in the terms of the StateMachine specification. */
    function State(): StateMachine.MachineState
      reads this
    {
      StateMachine.MachineState(store, lastApplied)
    }

    /**
     * The machine as `initialize` leaves it: over the contents of the map it
     * opened, at the position its base class starts from.
     */
    constructor (contents: StateMachine.Store, position: TermIndex)
      ensures store == contents && lastApplied == position
    {
      store := contents;
      lastApplied := position;
    }

    /** The read-only path: dispatches on the request type and reads the map, changing nothing. */
    method Query(request: Option<YcsbMessage>) returns (reply: Reply)
      ensures reply == StateMachine.Query(State(), request)
    {
      if request.None? {
        return NullPointer;
      }
      var ycsbRequest := request.value;
      match ycsbRequest.requestType {
        case Read =>
          var requestedValue := StateMachine.GetValue(store, ycsbRequest.key);
          if requestedValue == "" {
            reply := Serialized(ErrorReply(StateMachine.NoRecordFor + ycsbRequest.key));
          } else {
            reply := Serialized(ReadReply(requestedValue));
          }
        case OtherYcsbType =>
          return Text(StateMachine.InvalidRequestType);
        case NullYcsbType =>
          return NullPointer;
      }
    }

    /**
     * The mutating path: records the entry's (term, index) first, then
     * dispatches on the log-data message's type.
     */
    method ApplyTransaction(entry: LogEntry) returns (reply: Reply)
      modifies this
      ensures lastApplied == TermIndex(entry.term, entry.index)
      ensures State() == StateMachine.Apply(old(State()), entry).next
      ensures reply == StateMachine.Apply(old(State()), entry).reply
    {
      lastApplied := TermIndex(entry.term, entry.index);
      if entry.logDataMessage.None? {
        return NullPointer;
      }
      var requestMsg := entry.logDataMessage.value;
      var operation: string;
      match requestMsg.requestType {
        case Create =>
          if entry.entryMessage.None? {
            return NullPointer;
          }
          var ycsbRequest := entry.entryMessage.value;
          store := store[ycsbRequest.key := ycsbRequest.value];
          operation := "CREATE";
        case Update =>
          store := store[requestMsg.key := requestMsg.value];
          operation := "UPDATE";
        case OtherCrudType =>
          return Text(StateMachine.InvalidRequestType);
        case NullCrudType =>
          return NullPointer;
      }
      reply := Text(StateMachine.Performed(operation));
    }
  }
}
