/**
 * The plain data records of package `block` that carry no behaviour:
 * event snapshots (internal/block/event.go) and update messages
 * (internal/block/updateMsg.go).
 */
module Events {
  import opened Blocks

  /** `EventType` is a Go string type; these are its named values. */
  type EventType = string

  const InsertEvent: EventType := "insert"
  const DeleteEvent: EventType := "delete"
  const IntegrateEvent: EventType := "integrate"
  const SplitEvent: EventType := "split"
  const MarkerEvent: EventType := "marker"

  /** `BlockSnapshot`: the serialisable part of a block, without its links. */
  datatype BlockSnapshot = BlockSnapshot(
    id: ID,
    content: string,
    deleted: bool,
    leftOrigin: ID,
    rightOrigin: ID)

  /** `Event`, without the `Points` log attributes. */
  datatype Event = Event(
    eventType: EventType,
    stateVector: map<int, nat>,
    blocksByClient: map<int, seq<BlockSnapshot>>)

  /** `Update`: blocks grouped by client. */
  datatype Update = Update(updates: map<int, seq<Block>>)

  datatype DeleteRange = DeleteRange(startClock: int, deleteLength: int)

  datatype ClientDeletes = ClientDeletes(client: int, deletedRanges: seq<DeleteRange>)

  datatype DeleteUpdate = DeleteUpdate(numClients: int, clientDeletes: seq<ClientDeletes>)

  datatype Updates = Updates(updates: Update, deletes: DeleteUpdate)
}
