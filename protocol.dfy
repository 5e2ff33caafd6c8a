/** The two partition protocols run against a catalog client:
    CreateJSONPartition (read the table, create the partition, accept
    "already exists") and SyncPartition (delete the partition, accept
    "not found", then create it afresh).

    Each protocol is given twice: as functions of the client's answers
    (what it returns and which requests it sends), whose contracts state the
    error taxonomy and the call counts, and as a method that runs it against
    a client and is proved to return and send exactly that. */
module GlueProtocol {
  import opened GlueErrors
  import opened GlueTable
  import opened GlueCatalog

  /** Context added to a delete failure before it is returned. */
  const DeletePartitionFailed: string := "delete partition failed"

  /** The JSON partition for time `t` of a table whose storage is `table`:
      its values are the time bucket's, it is parsed exactly as the table is,
      and its data lives under the table's location, in the bucket's path. */
  function JSONPartitionInput<E>(gm: GlueTableMetadata<E>, table: StorageDescriptor, t: UtcTime): (p: PartitionInput)
    ensures p.values == PartitionValues(gm.timebin, t)
    ensures p.storageDescriptor.serdeInfo == table.serdeInfo
    ensures table.location + "/" <= p.storageDescriptor.location
    ensures p.storageDescriptor.location[|table.location| + 1..] == gm.GetPartitionPrefix(t)[|gm.prefix|..]
  {
    PartitionInput(PartitionValues(gm.timebin, t),
                   StorageDescriptor(table.location + "/" + TimePath(gm.timebin, t), table.serdeInfo))
  }

  /** What CreateJSONPartition returns, given the answers of GetTable and
      CreatePartition: success exactly when the table was read and the
      partition was created or already there; otherwise the failing call's
      own error, unchanged. */
  function CreateOutcome(getTable: Result<StorageDescriptor>, createPartition: Outcome): (r: Outcome)
    ensures r.Pass? <==> getTable.Ok? && (createPartition.Pass? || IsAlreadyExists(createPartition.error))
    ensures getTable.Err? ==> r == Fail(getTable.error)
    ensures getTable.Ok? && r.Fail? ==> r == createPartition
  {
    if getTable.Err? then Fail(getTable.error)
    else if createPartition.Fail? && !IsAlreadyExists(createPartition.error) then createPartition
    else Pass
  }

  /** The requests CreateJSONPartition sends: one GetTable for the table,
      then one CreatePartition exactly when the table could be read. */
  function CreateCalls<E>(gm: GlueTableMetadata<E>, getTable: Result<StorageDescriptor>, t: UtcTime): (calls: seq<Request>)
    ensures |calls| >= 1 && calls[0] == GetTableCall(gm.databaseName, gm.tableName)
    ensures CountCalls(calls, GetTableOp) == 1
    ensures CountCalls(calls, CreatePartitionOp) == if getTable.Ok? then 1 else 0
    ensures CountCalls(calls, DeletePartitionOp) == 0
    ensures getTable.Ok? ==>
              calls[|calls| - 1] == CreatePartitionCall(gm.databaseName, gm.tableName,
                                                        JSONPartitionInput(gm, getTable.value, t))
  {
    [GetTableCall(gm.databaseName, gm.tableName)]
    + if getTable.Ok?
      then [CreatePartitionCall(gm.databaseName, gm.tableName, JSONPartitionInput(gm, getTable.value, t))]
      else []
  }

  /** A delete that succeeded or found nothing to delete lets the sync go on. */
  predicate DeleteIsBenign(deletePartition: Outcome) {
    deletePartition.Pass? || IsEntityNotFound(deletePartition.error)
  }

  /** What SyncPartition returns: after a benign delete, what the create
      protocol returns; after any other delete failure, that failure wrapped
      with context, its cause intact. */
  function SyncOutcome(deletePartition: Outcome, getTable: Result<StorageDescriptor>, createPartition: Outcome): (r: Outcome)
    ensures DeleteIsBenign(deletePartition) ==> r == CreateOutcome(getTable, createPartition)
    ensures !DeleteIsBenign(deletePartition) ==>
              && r.Fail? && r.error.Wrapped? && r.error.cause == deletePartition.error
              && Cause(r.error) == Cause(deletePartition.error)
              && Text(Cause(r.error)) == Text(Cause(deletePartition.error))
    ensures r.Pass? ==> DeleteIsBenign(deletePartition) && getTable.Ok?
  {
    if DeleteIsBenign(deletePartition) then CreateOutcome(getTable, createPartition)
    else Fail(Wrapped(DeletePartitionFailed, deletePartition.error))
  }

  /** The requests SyncPartition sends: one DeletePartition for the time
      bucket, then, only when the delete was benign, those of the create
      protocol.  A fatal delete means no GetTable and no CreatePartition. */
  function SyncCalls<E>(gm: GlueTableMetadata<E>, deletePartition: Outcome, getTable: Result<StorageDescriptor>,
                        t: UtcTime): (calls: seq<Request>)
    ensures |calls| >= 1
    ensures calls[0] == DeletePartitionCall(gm.databaseName, gm.tableName, PartitionValues(gm.timebin, t))
    ensures CountCalls(calls, DeletePartitionOp) == 1
    ensures !DeleteIsBenign(deletePartition) ==>
              CountCalls(calls, GetTableOp) == 0 && CountCalls(calls, CreatePartitionOp) == 0
    ensures DeleteIsBenign(deletePartition) ==>
              && CountCalls(calls, GetTableOp) == 1
              && CountCalls(calls, CreatePartitionOp) == (if getTable.Ok? then 1 else 0)
              && calls[1..] == CreateCalls(gm, getTable, t)
  {
    var delete := [DeletePartitionCall(gm.databaseName, gm.tableName, PartitionValues(gm.timebin, t))];
    var rest := if DeleteIsBenign(deletePartition) then CreateCalls(gm, getTable, t) else [];
    CountCallsAppend(delete, rest, GetTableOp);
    CountCallsAppend(delete, rest, CreatePartitionOp);
    CountCallsAppend(delete, rest, DeletePartitionOp);
    delete + rest
  }

  /** Creates the JSON partition of time `t`, inheriting the table's storage
      descriptor; a partition that already exists counts as created. */
  method CreateJSONPartition<E>(gm: GlueTableMetadata<E>, client: MockGlue, t: UtcTime) returns (r: Outcome)
    modifies client`calls
    ensures r == CreateOutcome(client.getTableResponse, client.createPartitionResponse)
    ensures client.calls == old(client.calls) + CreateCalls(gm, client.getTableResponse, t)
  {
    var table := client.GetTable(gm.databaseName, gm.tableName);
    if table.Err? {
      return Fail(table.error);
    }
    var created := client.CreatePartition(gm.databaseName, gm.tableName, JSONPartitionInput(gm, table.value, t));
    if created.Fail? && !IsAlreadyExists(created.error) {
      return created;
    }
    return Pass;
  }

  /** Deletes the partition of time `t` and creates it again from the
      table's current storage descriptor.  A partition that was not there
      is no error; any other delete failure stops the sync before creation. */
  method SyncPartition<E>(gm: GlueTableMetadata<E>, client: MockGlue, t: UtcTime) returns (r: Outcome)
    modifies client`calls
    ensures r == SyncOutcome(client.deletePartitionResponse, client.getTableResponse, client.createPartitionResponse)
    ensures client.calls == old(client.calls)
              + SyncCalls(gm, client.deletePartitionResponse, client.getTableResponse, t)
  {
    var deleted := client.DeletePartition(gm.databaseName, gm.tableName, PartitionValues(gm.timebin, t));
    if deleted.Fail? && !IsEntityNotFound(deleted.error) {
      return Fail(Wrapped(DeletePartitionFailed, deleted.error));
    }
    r := CreateJSONPartition(gm, client, t);
  }
}
