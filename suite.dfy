/** The package's test scenarios, replayed against the model: each method
    scripts a client as its scenario does, runs a protocol and proves the
    scenario's expectations (the result, the error's identity or cause, and
    how often each client operation was called).  The scenarios use one
    table and one time; here the table and the time are parameters, so each
    expectation is proved for every table and every time. */
module GlueSuite {
  import opened GlueErrors
  import opened GlueTable
  import opened GlueCatalog
  import opened GlueProtocol

  /** The empty event shape the scenarios build their tables with. */
  datatype PartitionTestEvent = PartitionTestEvent

  const NonAwsError: Error := PlainError("nonAWSError")
  const EntityExistsError: Error := AwsError(ErrCodeAlreadyExists, "PartitionKey already exists.")
  const EntityNotFoundError: Error := AwsError(ErrCodeEntityNotFound, "Entity not found")
  const OtherAwsError: Error := AwsError("SomeException", "Some problem.")

  /** The table every scenario reads: JSON records under a test bucket. */
  const TestTable: StorageDescriptor :=
    StorageDescriptor("s3://testbucket/logs/table",
                      SerDeInfo("org.openx.data.jsonserde.JsonSerDe",
                                map["serialization.format" := "1", "case.insensitive" := "TRUE"]))

  /** The three counters the expectations are checked against. */
  predicate Called(client: MockGlue, getTable: nat, createPartition: nat, deletePartition: nat)
    reads client
  {
    && CountCalls(client.calls, GetTableOp) == getTable
    && CountCalls(client.calls, CreatePartitionOp) == createPartition
    && CountCalls(client.calls, DeletePartitionOp) == deletePartition
  }

  method CreatePartitionSucceeds(gm: GlueTableMetadata<PartitionTestEvent>, t: UtcTime) returns (err: Outcome, client: MockGlue)
    ensures err == Pass
    ensures Called(client, 1, 1, 0)
  {
    client := new MockGlue(Ok(TestTable), Pass, Pass);
    err := CreateJSONPartition(gm, client, t);
    assert client.calls == CreateCalls(gm, client.getTableResponse, t);
    assert err == Pass;
    assert Called(client, 1, 1, 0);
  }

  method CreatePartitionAlreadyExists(gm: GlueTableMetadata<PartitionTestEvent>, t: UtcTime) returns (err: Outcome, client: MockGlue)
    ensures err == Pass
    ensures Called(client, 1, 1, 0)
  {
    client := new MockGlue(Ok(TestTable), Fail(EntityExistsError), Pass);
    err := CreateJSONPartition(gm, client, t);
    assert client.calls == CreateCalls(gm, client.getTableResponse, t);
    assert err == Pass;
    assert Called(client, 1, 1, 0);
  }

  method CreatePartitionGetTableFails(gm: GlueTableMetadata<PartitionTestEvent>, t: UtcTime) returns (err: Outcome, client: MockGlue)
    ensures err == Fail(NonAwsError)
    ensures Called(client, 1, 0, 0)
  {
    client := new MockGlue(Err(NonAwsError), Pass, Pass);
    err := CreateJSONPartition(gm, client, t);
    assert client.calls == CreateCalls(gm, client.getTableResponse, t);
    assert err == Fail(NonAwsError);
    assert Called(client, 1, 0, 0);
  }

  method CreatePartitionCreateFails(gm: GlueTableMetadata<PartitionTestEvent>, t: UtcTime) returns (err: Outcome, client: MockGlue)
    ensures err == Fail(NonAwsError)
    ensures Called(client, 1, 1, 0)
  {
    client := new MockGlue(Ok(TestTable), Fail(NonAwsError), Pass);
    err := CreateJSONPartition(gm, client, t);
    assert client.calls == CreateCalls(gm, client.getTableResponse, t);
    assert err == Fail(NonAwsError);
    assert Called(client, 1, 1, 0);
  }

  method SyncPartitionNotFound(gm: GlueTableMetadata<PartitionTestEvent>, t: UtcTime) returns (err: Outcome, client: MockGlue)
    ensures err == Pass
    ensures Called(client, 1, 1, 1)
  {
    client := new MockGlue(Ok(TestTable), Pass, Fail(EntityNotFoundError));
    assert DeleteIsBenign(Fail(EntityNotFoundError));
    err := SyncPartition(gm, client, t);
    assert client.calls == SyncCalls(gm, client.deletePartitionResponse, client.getTableResponse, t);
    assert err == Pass;
    assert Called(client, 1, 1, 1);
  }

  method SyncPartitionOtherAwsError(gm: GlueTableMetadata<PartitionTestEvent>, t: UtcTime) returns (err: Outcome, client: MockGlue)
    ensures err.Fail? && Text(Cause(err.error)) == Text(OtherAwsError)
    ensures Called(client, 0, 0, 1)
  {
    client := new MockGlue(Ok(TestTable), Pass, Fail(OtherAwsError));
    err := SyncPartition(gm, client, t);
    assert client.calls == SyncCalls(gm, client.deletePartitionResponse, client.getTableResponse, t);
    assert err.Fail?;
    assert Text(Cause(err.error)) == Text(OtherAwsError);
    assert Called(client, 0, 0, 1);
  }

  method SyncPartitionNonAwsError(gm: GlueTableMetadata<PartitionTestEvent>, t: UtcTime) returns (err: Outcome, client: MockGlue)
    ensures err.Fail? && Text(Cause(err.error)) == Text(NonAwsError)
    ensures Called(client, 0, 0, 1)
  {
    client := new MockGlue(Ok(TestTable), Pass, Fail(NonAwsError));
    err := SyncPartition(gm, client, t);
    assert client.calls == SyncCalls(gm, client.deletePartitionResponse, client.getTableResponse, t);
    assert err.Fail?;
    assert Text(Cause(err.error)) == Text(NonAwsError);
    assert Called(client, 0, 0, 1);
  }
}
