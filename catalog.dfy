/** The catalog client as the protocols see it, and the scripted client
    that stands in for the catalog service: it answers every call with a
    canned response and records the call, in order. */
module GlueCatalog {
  import opened GlueErrors

  /** How the records of a table or partition are parsed. */
  datatype SerDeInfo = SerDeInfo(serializationLibrary: string, parameters: map<string, string>)

  /** Where a table's or partition's data lives and how it is encoded. */
  datatype StorageDescriptor = StorageDescriptor(location: string, serdeInfo: SerDeInfo)

  /** The description of a partition sent with a create request. */
  datatype PartitionInput = PartitionInput(values: seq<string>, storageDescriptor: StorageDescriptor)

  /** A request the client received. */
  datatype Request =
    | GetTableCall(databaseName: string, name: string)
    | CreatePartitionCall(databaseName: string, tableName: string, partitionInput: PartitionInput)
    | DeletePartitionCall(databaseName: string, tableName: string, partitionValues: seq<string>)

  datatype Operation = GetTableOp | CreatePartitionOp | DeletePartitionOp

  function OperationOf(r: Request): Operation {
    match r
    case GetTableCall(_, _) => GetTableOp
    case CreatePartitionCall(_, _, _) => CreatePartitionOp
    case DeletePartitionCall(_, _, _) => DeletePartitionOp
  }

  /** How many of the recorded requests are of operation `op`. */
  function CountCalls(calls: seq<Request>, op: Operation): (n: nat)
    ensures n <= |calls|
    ensures n == 0 <==> forall i :: 0 <= i < |calls| ==> OperationOf(calls[i]) != op
  {
    if calls == [] then 0
    else CountCalls(calls[..|calls| - 1], op) + (if OperationOf(calls[|calls| - 1]) == op then 1 else 0)
  }

  /** Counting distributes over a log recorded in two parts. */
  lemma {:induction false} CountCallsAppend(first: seq<Request>, second: seq<Request>, op: Operation)
    ensures CountCalls(first + second, op) == CountCalls(first, op) + CountCalls(second, op)
  {
    if second != [] {
      var all := first + second;
      assert all[..|all| - 1] == first + second[..|second| - 1];
      CountCallsAppend(first, second[..|second| - 1], op);
    } else {
      assert first + second == first;
    }
  }

  /** A catalog client whose answers are fixed in advance.  Each operation
      returns its canned response, whatever the request, and appends the
      request to `calls`; `calls` is what the expectations are checked
      against afterwards. */
  class MockGlue {
    var getTableResponse: Result<StorageDescriptor>
    var createPartitionResponse: Outcome
    var deletePartitionResponse: Outcome
    var calls: seq<Request>

    constructor (getTable: Result<StorageDescriptor>, createPartition: Outcome, deletePartition: Outcome)
      ensures getTableResponse == getTable
      ensures createPartitionResponse == createPartition
      ensures deletePartitionResponse == deletePartition
      ensures calls == []
    {
      getTableResponse := getTable;
      createPartitionResponse := createPartition;
      deletePartitionResponse := deletePartition;
      calls := [];
    }

    method GetTable(databaseName: string, name: string) returns (r: Result<StorageDescriptor>)
      modifies this`calls
      ensures r == getTableResponse
      ensures calls == old(calls) + [GetTableCall(databaseName, name)]
    {
      calls := calls + [GetTableCall(databaseName, name)];
      r := getTableResponse;
    }

    method CreatePartition(databaseName: string, tableName: string, partitionInput: PartitionInput) returns (r: Outcome)
      modifies this`calls
      ensures r == createPartitionResponse
      ensures calls == old(calls) + [CreatePartitionCall(databaseName, tableName, partitionInput)]
    {
      calls := calls + [CreatePartitionCall(databaseName, tableName, partitionInput)];
      r := createPartitionResponse;
    }

    method DeletePartition(databaseName: string, tableName: string, partitionValues: seq<string>) returns (r: Outcome)
      modifies this`calls
      ensures r == deletePartitionResponse
      ensures calls == old(calls) + [DeletePartitionCall(databaseName, tableName, partitionValues)]
    {
      calls := calls + [DeletePartitionCall(databaseName, tableName, partitionValues)];
      r := deletePartitionResponse;
    }
  }
}
