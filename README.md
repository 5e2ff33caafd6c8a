# Glue table metadata and partition protocols

A model of the `awsglue` package's table metadata and its two partition protocols. `GlueTableMetadata` describes one catalog table of log or rule-match data. The table's identity and storage layout come from a dotted log type:

- the table name is the log type lower-cased, with `.` turned into `_`;
- the database is chosen by the data type;
- the storage prefix is `logs/<table>/` or `rules/<table>/`.

A time bucket adds `year=YYYY/month=MM/day=DD/hour=HH/` to that prefix. Two protocols keep a time bucket's partition in the catalog:

- `CreateJSONPartition` reads the table, then creates the partition with the table's storage descriptor. "Already exists" counts as success.
- `SyncPartition` deletes the partition first. "Entity not found" counts as success, and the create protocol then runs. Any other delete failure is returned, wrapped with context and with its cause kept, and nothing is created.

The catalog client is a scripted client, `GlueCatalog.MockGlue`. It has one canned response per operation and records every request it receives, in order. How often each operation was called is counted from that record (`CountCalls`).

Files:

- `errors.dfy` (module `GlueErrors`) holds the error taxonomy: classified catalog errors with a code, plain errors and wrapped errors. It also gives the cause and the text of an error.
- `decimal.dfy` (module `Decimal`) renders zero-padded decimals and parses them back.
- `table.dfy` (module `GlueTable`) holds the table metadata, name and prefix derivation, and the time path.
- `catalog.dfy` (module `GlueCatalog`) holds the request record and the scripted client.
- `protocol.dfy` (module `GlueProtocol`) gives each protocol twice. Functions give its result and the requests it sends as functions of the client's answers. A method runs it against the client and is proved to return and send exactly that.
- `suite.dfy` (module `GlueSuite`) replays the seven protocol scenarios of `pkg/awsglue/glue_test.go` as methods. Each proves its scenario's expectations: the error returned or its cause, and the call counts that `.Once()` and `AssertExpectations` check. The scenarios are proved for every table and time, not only for `Test.Logs` at the reference time.

The implementation file of the package, `pkg/awsglue/glue.go`, is not part of this model. The test suite's assertions pin only part of the behaviour, because every scenario matches requests with `mock.Anything`. The choices the model makes where the suite is silent are listed under "## Left out".

## Model

| member | source | states |
|---|---|---|
| `GlueTable.NewGlueTableMetadata` | pkg/awsglue/glue_test.go:64-72 | the description, log type, timebin and event struct are returned unchanged; the table name is the log type character by character with `.` as `_` and letters lower-cased; LogData gives `panther_logs` and prefix `logs/<table>/`, RuleData gives `panther_rule_matches` and `rules/<table>/` |
| `GlueTable.TableName` | pkg/awsglue/glue_test.go:69 | same length as the log type; position by position, `.` becomes `_` and an upper-case letter becomes its lower-case letter |
| `GlueTable.TableNameIdempotent` | pkg/awsglue/glue_test.go:82 | deriving a table name from a table name changes nothing |
| `GlueTable.TableNameIsIdentifier` | pkg/awsglue/glue_test.go:69 | no `.` and no upper-case letter is left in a table name; a log type of letters, digits, `_` and `.` gives a name of lower-case letters, digits and `_` only |
| `GlueTable.TablePrefixInjective` | pkg/awsglue/glue_test.go:71 | two tables share a storage prefix only if they have the same data type and the same table name (`logs/` and `rules/` never meet) |
| `GlueTable.GlueTableMetadata.GetPartitionPrefix` | pkg/awsglue/glue_test.go:73 | the partition prefix starts with the table's prefix, and the time path follows it |
| `GlueTable.TimePath` | pkg/awsglue/glue_test.go:86 | for a valid time, the path has fixed length (34 characters hourly, 26 daily) and ends in `/` |
| `Decimal.ZeroPad` | pkg/awsglue/glue_test.go:73 | the rendering is all digits; it is padded to at least the width, and to exactly the width when the number fits; it parses back to the number |
| `Decimal.DigitsRoundTrip` | pkg/awsglue/glue_test.go:73 | parsing the decimal rendering of a number gives the number back |
| `Decimal.LeadingZeros` | pkg/awsglue/glue_test.go:73 | padding zeros do not change the value read back |
| `Decimal.DigitsWidth` | pkg/awsglue/glue_test.go:73 | a number below 10^k has at most k digits, so the year takes 4 digits and the other fields 2 |
| `GlueTable.TimePathInjective` | pkg/awsglue/glue_test.go:73 | two valid times have the same hourly path if and only if year, month, day and hour are equal, and the same daily path if and only if the date is equal |
| `GlueTable.DailyIgnoresHour` | pkg/awsglue/glue_test.go:64 | for a Daily table, the partition prefix does not depend on the hour (this model's own choice; no scenario uses Daily) |
| `GlueTable.PartitionValues` | pkg/awsglue/glue_test.go:140 | the partition values are 4 digit strings for an hourly table and 3 for a daily one |
| `GlueTable.PartitionValuesOfTime` | pkg/awsglue/glue_test.go:140 | the partition values read back as the year, the month, the day and (hourly only) the hour, in that order; the time path is exactly the `year=`, `month=`, `day=` and `hour=` segments of these values |
| `GlueTable.LogDataExample` | pkg/awsglue/glue_test.go:63-74 | `My.Logs.Type` as LogData gives `my_logs_type`, `panther_logs` and `logs/my_logs_type/`, and 2020-01-03T01 gives `logs/my_logs_type/year=2020/month=01/day=03/hour=01/` |
| `GlueTable.RuleDataExample` | pkg/awsglue/glue_test.go:76-87 | `My.Rule` as RuleData gives `my_rule`, `panther_rule_matches` and `rules/my_rule/`, and 2020-01-03T01 gives `rules/my_rule/year=2020/month=01/day=03/hour=01/` |
| `GlueErrors.Cause` | pkg/awsglue/glue_test.go:155 | the cause is never a wrapped error, and an unwrapped error is its own cause |
| `GlueErrors.CauseOfWrapped` | pkg/awsglue/glue_test.go:166 | wrapping keeps the cause |
| `GlueErrors.Text` | pkg/awsglue/glue_test.go:155 | a classified error reads as its code, `: `, then its message; a plain error reads as its message; a wrapped error reads as its context, `: `, then its inner error's text |
| `GlueErrors.CauseTextIsSuffix` | pkg/awsglue/glue_test.go:155 | the text of any error ends with the text of its cause |
| `GlueCatalog.CountCalls` | pkg/awsglue/glue_test.go:94-97 | the count is at most the number of requests, and it is zero exactly when no recorded request is of that operation |
| `GlueCatalog.CountCallsAppend` | pkg/awsglue/glue_test.go:140-145 | counting a record made of two parts gives the sum of the parts' counts |
| `GlueCatalog.MockGlue.constructor` | pkg/awsglue/glue_test.go:93-95 | a client holds the canned responses it was given and has recorded no request yet |
| `GlueCatalog.MockGlue.GetTable` | pkg/awsglue/glue_test.go:180-183 | returns the canned table response and appends the request to the record |
| `GlueCatalog.MockGlue.CreatePartition` | pkg/awsglue/glue_test.go:185-188 | returns the canned create response and appends the request to the record |
| `GlueCatalog.MockGlue.DeletePartition` | pkg/awsglue/glue_test.go:190-193 | returns the canned delete response and appends the request to the record |
| `GlueProtocol.JSONPartitionInput` | pkg/awsglue/glue_test.go:45-58 | the partition gets the time bucket's values and the table's SerDe unchanged; its location is the table location, then `/`, then the same time path the partition prefix ends with |
| `GlueProtocol.CreateOutcome` | pkg/awsglue/glue_test.go:89-133 | success exactly when GetTable succeeded and CreatePartition succeeded or reported AlreadyExists; a GetTable error is returned unchanged; otherwise a create error is returned unchanged |
| `GlueProtocol.CreateCalls` | pkg/awsglue/glue_test.go:112-121 | exactly one GetTable, for this table's database and name, comes first; exactly one CreatePartition follows when the table was read, carrying the JSON partition input, and none otherwise; no DeletePartition |
| `GlueProtocol.SyncOutcome` | pkg/awsglue/glue_test.go:148-168 | after a delete that succeeded or reported EntityNotFound, the result is the create protocol's result; after any other delete error (another AWS code or a non-AWS error), the result is a failure wrapping that error, with the same cause and cause text; success implies a benign delete and a readable table |
| `GlueProtocol.SyncCalls` | pkg/awsglue/glue_test.go:135-168 | exactly one DeletePartition, for this bucket's values, comes first; after a fatal delete there are zero GetTable and zero CreatePartition calls; after a benign one the create protocol's requests follow |
| `GlueProtocol.CreateJSONPartition` | pkg/awsglue/glue_test.go:89-133 | returns `CreateOutcome` of the client's answers and appends exactly `CreateCalls` to the client's record |
| `GlueProtocol.SyncPartition` | pkg/awsglue/glue_test.go:135-168 | returns `SyncOutcome` of the client's answers and appends exactly `SyncCalls` to the client's record |
| `GlueSuite.CreatePartitionSucceeds` | pkg/awsglue/glue_test.go:89-98 | for every table and time, with a readable table and a create that succeeds, the result is success and GetTable and CreatePartition are called once each, DeletePartition never |
| `GlueSuite.CreatePartitionAlreadyExists` | pkg/awsglue/glue_test.go:100-110 | a create that reports AlreadyExists still gives success, with one GetTable and one CreatePartition |
| `GlueSuite.CreatePartitionGetTableFails` | pkg/awsglue/glue_test.go:112-121 | a GetTable error is returned unchanged, after one GetTable and no CreatePartition |
| `GlueSuite.CreatePartitionCreateFails` | pkg/awsglue/glue_test.go:123-133 | a non-AWS create error is returned unchanged, after one GetTable and one CreatePartition |
| `GlueSuite.SyncPartitionNotFound` | pkg/awsglue/glue_test.go:135-146 | a delete that reports EntityNotFound still gives success, with one call of each operation |
| `GlueSuite.SyncPartitionOtherAwsError` | pkg/awsglue/glue_test.go:148-157 | a delete failing with another AWS code gives a failure whose cause has that error's text, after one DeletePartition and no other call |
| `GlueSuite.SyncPartitionNonAwsError` | pkg/awsglue/glue_test.go:159-168 | a non-AWS delete error gives a failure whose cause has that error's text, after one DeletePartition and no other call |

## Left out

- `pkg/awsglue/glue.go` is not part of this model. The following are this model's own choices, and no assertion of the suite pins them:
  - the database name values `panther_logs` and `panther_rule_matches`;
  - the partition location (table location, `/`, time path);
  - the wording of the delete-failure context;
  - that a fatal delete error is wrapped at all: the suite compares only the text of its cause (pkg/awsglue/glue_test.go:155, 166);
  - that after a benign delete a GetTable or CreatePartition failure is returned unwrapped: no scenario makes the create protocol fail after a delete (pkg/awsglue/glue_test.go:140-142);
  - that a delete that succeeds is benign: in every sync scenario the delete fails (pkg/awsglue/glue_test.go:140, 152, 163);
  - the format of the partition values, and that DeletePartition and CreatePartition carry the same values;
  - that the JSON partition copies the table's SerDe unchanged;
  - padding the year to 4 digits: the only year in the suite is 2020, which reads the same padded or not;
  - the Daily timebin (below).
- `GlueErrors.Text`: the `code: message` rendering of a classified error comes from the AWS SDK, which is not part of this model; the suite only compares two such texts.
- The Daily timebin is modelled: it drops the hour segment and the hour value. No scenario exercises it, so `DailyIgnoresHour` and the daily cases of `TimePath` and `TimePathInjective` are this model's own choice, pinned by no assertion.
- `mockGlue.GetPartition` (pkg/awsglue/glue_test.go:175-178) is not modelled, because neither protocol calls it.
- `.Once()` is not modelled as a limit on answers. The scripted client answers every call the same way. A call with no expectation makes testify panic; that is not modelled either. The model proves instead that each operation is called exactly as often as the scenario expects, zero included.
- The SDK request and response structs are reduced to what the protocols use: database and table names, partition values, location and SerDe. The input and output formats are not modelled. The testify machinery (`mock.Mock`, `m.Called`, `mock.Anything`) is not modelled.
- `time.Time` is reduced to its UTC year, month, day and hour. Minutes, seconds, time zones and calendar arithmetic are not modelled. Years are taken as non-negative. Fixed-width claims assume years up to 9999.
- `TableName`: only ASCII letters are lower-cased. Unicode case mapping (`strings.ToLower`) is not modelled.
- The event struct is carried through unchanged and never inspected.
- The React settings page (`web/src/pages/general-settings/index.tsx`) is not modelled: it is UI code with no logic of this package.
- Concurrency between callers is not modelled. Each protocol is one synchronous sequence of calls.
