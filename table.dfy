/** Identity and storage layout of one catalog table: its name, its
    database and its storage prefix, all derived from the log type, and the
    time-bucketed partition prefix derived from them and a UTC time. */
module GlueTable {
  import opened Decimal

  /** Which family of tables a log type's table belongs to. */
  datatype DataType = LogData | RuleData

  /** Partition granularity. */
  datatype Timebin = Hourly | Daily

  /** The UTC calendar fields of an instant; minutes and seconds play no part. */
  datatype UtcTime = UtcTime(year: nat, month: nat, day: nat, hour: nat)

  /** Field ranges of a calendar time with a four-digit year. */
  predicate ValidTime(t: UtcTime) {
    t.year <= 9999 && 1 <= t.month <= 12 && 1 <= t.day <= 31 && t.hour <= 23
  }

  const LogProcessingDatabaseName: string := "panther_logs"
  const RuleMatchDatabaseName: string := "panther_rule_matches"

  /** Storage roots of the two families. */
  const LogsPrefixRoot: string := "logs"
  const RulesPrefixRoot: string := "rules"

  /** The metadata of one table.  Like the `awsglue` package's struct, it keeps the
      names derived at construction next to the arguments it was built from;
      the event shape is carried along and never looked at. */
  datatype GlueTableMetadata<EventShape> = GlueTableMetadata(
    databaseName: string,
    tableName: string,
    description: string,
    logType: string,
    prefix: string,
    timebin: Timebin,
    eventStruct: EventShape)
  {
    /** The storage prefix of the partition holding time `t`. */
    function GetPartitionPrefix(t: UtcTime): (p: string)
      ensures prefix <= p
      ensures p[|prefix|..] == TimePath(timebin, t)
    {
      prefix + TimePath(timebin, t)
    }
  }

  function LowerAscii(c: char): char {
    if 'A' <= c <= 'Z' then ((c as int) - ('A' as int) + ('a' as int)) as char else c
  }

  /** The log type made into a catalog identifier: every `.` becomes `_`
      and every letter is lower-cased. */
  function TableName(logType: string): (name: string)
    ensures |name| == |logType|
    ensures forall i :: 0 <= i < |logType| ==>
              name[i] == if logType[i] == '.' then '_' else LowerAscii(logType[i])
  {
    if logType == [] then []
    else [if logType[0] == '.' then '_' else LowerAscii(logType[0])] + TableName(logType[1..])
  }

  function DatabaseName(dataType: DataType): string {
    match dataType
    case LogData => LogProcessingDatabaseName
    case RuleData => RuleMatchDatabaseName
  }

  function TablePrefix(dataType: DataType, tableName: string): string {
    match dataType
    case LogData => LogsPrefixRoot + "/" + tableName + "/"
    case RuleData => RulesPrefixRoot + "/" + tableName + "/"
  }

  /** Builds the metadata of a log type's table.  Construction cannot fail. */
  function NewGlueTableMetadata<EventShape>(dataType: DataType, logType: string, description: string,
                                            timebin: Timebin, eventStruct: EventShape): (gm: GlueTableMetadata<EventShape>)
    ensures gm.description == description && gm.logType == logType
    ensures gm.timebin == timebin && gm.eventStruct == eventStruct
    ensures |gm.tableName| == |logType|
    ensures forall i :: 0 <= i < |logType| ==>
              gm.tableName[i] == if logType[i] == '.' then '_' else LowerAscii(logType[i])
    ensures gm.databaseName == if dataType == LogData then "panther_logs" else "panther_rule_matches"
    ensures gm.prefix == (if dataType == LogData then "logs/" else "rules/") + gm.tableName + "/"
  {
    var tableName := TableName(logType);
    GlueTableMetadata(DatabaseName(dataType), tableName, description, logType,
                      TablePrefix(dataType, tableName), timebin, eventStruct)
  }

  /** One `key=value/` segment of a Hive-style partition path. */
  function Segment(key: string, value: string): (s: string)
    ensures |s| == |key| + |value| + 2
  {
    key + "=" + value + "/"
  }

  /** The time segments of a partition path: year, month, day and, for an
      hourly table, hour, each zero-padded. */
  function TimePath(timebin: Timebin, t: UtcTime): (p: string)
    ensures ValidTime(t) ==> |p| == if timebin == Hourly then 34 else 26
    ensures |p| > 0 && p[|p| - 1] == '/'
  {
    assert Pow10(2) == 100 && Pow10(4) == 10000;
    Segment("year", ZeroPad(t.year, 4)) + (Segment("month", ZeroPad(t.month, 2)) + (Segment("day", ZeroPad(t.day, 2))
    + (if timebin == Hourly then Segment("hour", ZeroPad(t.hour, 2)) else "")))
  }

  /** The partition's column values, one per segment of the time path. */
  function PartitionValues(timebin: Timebin, t: UtcTime): (values: seq<string>)
    ensures |values| == if timebin == Hourly then 4 else 3
    ensures forall i :: 0 <= i < |values| ==> AllDigits(values[i])
  {
    [ZeroPad(t.year, 4), ZeroPad(t.month, 2), ZeroPad(t.day, 2)]
    + (if timebin == Hourly then [ZeroPad(t.hour, 2)] else [])
  }

  /** The partition values read back as the year, the month, the day and,
      for an hourly table, the hour, in that order; and the time path is
      exactly the keyed segments of these values. */
  lemma PartitionValuesOfTime(timebin: Timebin, t: UtcTime)
    ensures var values := PartitionValues(timebin, t);
            && ParseDecimal(values[0]) == t.year
            && ParseDecimal(values[1]) == t.month
            && ParseDecimal(values[2]) == t.day
            && (timebin == Hourly ==> ParseDecimal(values[3]) == t.hour)
    ensures var values := PartitionValues(timebin, t);
            TimePath(timebin, t)
            == Segment("year", values[0]) + (Segment("month", values[1]) + (Segment("day", values[2])
               + (if timebin == Hourly then Segment("hour", values[3]) else "")))
  {
  }

  /** Deriving a table name from a table name changes nothing. */
  lemma TableNameIdempotent(logType: string)
    ensures TableName(TableName(logType)) == TableName(logType)
  {
  }

  predicate IsLogTypeChar(c: char) {
    'a' <= c <= 'z' || 'A' <= c <= 'Z' || '0' <= c <= '9' || c == '_' || c == '.'
  }

  /** Letters that the catalog accepts in a table name. */
  predicate IsIdentifierChar(c: char) {
    'a' <= c <= 'z' || '0' <= c <= '9' || c == '_'
  }

  /** A dotted log type of letters, digits and underscores gives a legal
      catalog identifier; whatever the log type, no `.` and no upper-case
      letter survives. */
  lemma TableNameIsIdentifier(logType: string)
    ensures forall i :: 0 <= i < |logType| ==> TableName(logType)[i] != '.'
    ensures forall i :: 0 <= i < |logType| ==> !('A' <= TableName(logType)[i] <= 'Z')
    ensures (forall i :: 0 <= i < |logType| ==> IsLogTypeChar(logType[i])) ==>
              forall i :: 0 <= i < |logType| ==> IsIdentifierChar(TableName(logType)[i])
  {
  }

  /** Two tables share a storage prefix only when they are of the same
      family and have the same name: tables never overwrite each other. */
  lemma {:induction false} TablePrefixInjective(d1: DataType, name1: string, d2: DataType, name2: string)
    requires TablePrefix(d1, name1) == TablePrefix(d2, name2)
    ensures d1 == d2 && name1 == name2
  {
    var p := TablePrefix(d1, name1);
    assert p[0] == if d1 == LogData then 'l' else 'r';
    assert p[0] == if d2 == LogData then 'l' else 'r';
    var root := if d1 == LogData then "logs/" else "rules/";
    assert p == root + name1 + "/";
    assert p == root + name2 + "/";
    assert name1 == p[|root|..|p| - 1];
    assert name2 == p[|root|..|p| - 1];
  }

  /** Two paths that start with a segment of the same key and of values of
      the same width agree on the value and on the rest of the path. */
  lemma SegmentCancel(key: string, v1: string, v2: string, r1: string, r2: string)
    requires |v1| == |v2|
    requires Segment(key, v1) + r1 == Segment(key, v2) + r2
    ensures v1 == v2 && r1 == r2
  {
    var n := |key| + 1;
    var p := Segment(key, v1) + r1;
    assert p[n..n + |v1|] == v1;
    assert p[n..n + |v2|] == v2;
    assert p[n + |v1| + 1..] == r1;
    assert p[n + |v2| + 1..] == r2;
  }

  /** Equal padded renderings of numbers below 10^width are of equal numbers. */
  lemma ZeroPadInjective(n1: nat, n2: nat, width: nat)
    requires 1 <= width && n1 < Pow10(width) && n2 < Pow10(width)
    requires ZeroPad(n1, width) == ZeroPad(n2, width)
    ensures n1 == n2
  {
  }

  /** Two valid times share an hourly path exactly when they fall in the
      same hour, and a daily path exactly when they fall on the same day:
      the time path names the bucket and nothing else. */
  lemma {:induction false} TimePathInjective(timebin: Timebin, t1: UtcTime, t2: UtcTime)
    requires ValidTime(t1) && ValidTime(t2)
    ensures TimePath(timebin, t1) == TimePath(timebin, t2) <==>
              && t1.year == t2.year && t1.month == t2.month && t1.day == t2.day
              && (timebin == Hourly ==> t1.hour == t2.hour)
  {
    if TimePath(timebin, t1) == TimePath(timebin, t2) {
      SameTimePath(timebin, t1, t2);
    }
  }

  lemma {:induction false} SameTimePath(timebin: Timebin, t1: UtcTime, t2: UtcTime)
    requires ValidTime(t1) && ValidTime(t2)
    requires TimePath(timebin, t1) == TimePath(timebin, t2)
    ensures t1.year == t2.year && t1.month == t2.month && t1.day == t2.day
    ensures timebin == Hourly ==> t1.hour == t2.hour
  {
    assert Pow10(2) == 100 && Pow10(4) == 10000;
    var y1, m1, d1, h1 := ZeroPad(t1.year, 4), ZeroPad(t1.month, 2), ZeroPad(t1.day, 2), ZeroPad(t1.hour, 2);
    var y2, m2, d2, h2 := ZeroPad(t2.year, 4), ZeroPad(t2.month, 2), ZeroPad(t2.day, 2), ZeroPad(t2.hour, 2);
    var e1 := if timebin == Hourly then Segment("hour", h1) else "";
    var e2 := if timebin == Hourly then Segment("hour", h2) else "";
    var rd1, rd2 := Segment("day", d1) + e1, Segment("day", d2) + e2;
    var rm1, rm2 := Segment("month", m1) + rd1, Segment("month", m2) + rd2;
    assert TimePath(timebin, t1) == Segment("year", y1) + rm1;
    assert TimePath(timebin, t2) == Segment("year", y2) + rm2;
    SegmentCancel("year", y1, y2, rm1, rm2);
    SegmentCancel("month", m1, m2, rd1, rd2);
    SegmentCancel("day", d1, d2, e1, e2);
    ZeroPadInjective(t1.year, t2.year, 4);
    ZeroPadInjective(t1.month, t2.month, 2);
    ZeroPadInjective(t1.day, t2.day, 2);
    if timebin == Hourly {
      SegmentCancel("hour", h1, h2, "", "");
      ZeroPadInjective(t1.hour, t2.hour, 2);
    }
  }

  /** A daily partition does not depend on the hour. */
  lemma DailyIgnoresHour<E>(gm: GlueTableMetadata<E>, t1: UtcTime, t2: UtcTime)
    requires gm.timebin == Daily
    requires t1.year == t2.year && t1.month == t2.month && t1.day == t2.day
    ensures gm.GetPartitionPrefix(t1) == gm.GetPartitionPrefix(t2)
  {
  }

  /** The first table of the test suite: a log-data table. */
  lemma {:induction false} LogDataExample<E>(eventStruct: E)
    ensures var gm := NewGlueTableMetadata(LogData, "My.Logs.Type", "description", Hourly, eventStruct);
      && gm.tableName == "my_logs_type"
      && gm.databaseName == LogProcessingDatabaseName
      && gm.prefix == "logs/my_logs_type/"
      && gm.GetPartitionPrefix(UtcTime(2020, 1, 3, 1)) == "logs/my_logs_type/year=2020/month=01/day=03/hour=01/"
  {
    TableNameOfLiteral("My.Logs.Type", "my_logs_type");
    RefTimePath();
    LogDataLiterals();
  }

  /** The second table of the test suite: a rule-match table. */
  lemma {:induction false} RuleDataExample<E>(eventStruct: E)
    ensures var gm := NewGlueTableMetadata(RuleData, "My.Rule", "description", Hourly, eventStruct);
      && gm.tableName == "my_rule"
      && gm.databaseName == RuleMatchDatabaseName
      && gm.prefix == "rules/my_rule/"
      && gm.GetPartitionPrefix(UtcTime(2020, 1, 3, 1)) == "rules/my_rule/year=2020/month=01/day=03/hour=01/"
  {
    TableNameOfLiteral("My.Rule", "my_rule");
    RefTimePath();
    RuleDataLiterals();
  }

  lemma LogDataLiterals()
    ensures "logs/" + "my_logs_type" + "/" == "logs/my_logs_type/"
    ensures "logs/my_logs_type/" + "year=2020/month=01/day=03/hour=01/"
            == "logs/my_logs_type/year=2020/month=01/day=03/hour=01/"
  {
  }

  lemma RuleDataLiterals()
    ensures "rules/" + "my_rule" + "/" == "rules/my_rule/"
    ensures "rules/my_rule/" + "year=2020/month=01/day=03/hour=01/"
            == "rules/my_rule/year=2020/month=01/day=03/hour=01/"
  {
  }

  /** A table name checked character by character. */
  lemma TableNameOfLiteral(logType: string, expected: string)
    requires |expected| == |logType|
    requires forall i :: 0 <= i < |logType| ==>
               expected[i] == if logType[i] == '.' then '_' else LowerAscii(logType[i])
    ensures TableName(logType) == expected
  {
  }

  /** The time path of the suite's reference time, 2020-01-03T01:01:01Z. */
  lemma RefTimePath()
    ensures TimePath(Hourly, UtcTime(2020, 1, 3, 1)) == "year=2020/month=01/day=03/hour=01/"
  {
    PadYear();
    PadSmall(1);
    PadSmall(3);
    assert TimePath(Hourly, UtcTime(2020, 1, 3, 1))
        == Segment("year", "2020") + (Segment("month", "01") + (Segment("day", "03") + Segment("hour", "01")));
    RefSegments();
  }

  lemma RefSegments()
    ensures Segment("year", "2020") + (Segment("month", "01") + (Segment("day", "03") + Segment("hour", "01")))
            == "year=2020/month=01/day=03/hour=01/"
  {
    DayHourLiteral();
    MonthLiteral();
    YearLiteral();
  }

  lemma DayHourLiteral()
    ensures Segment("day", "03") + Segment("hour", "01") == "day=03/hour=01/"
  {
    assert Segment("day", "03") == "day=03/";
    assert Segment("hour", "01") == "hour=01/";
  }

  lemma MonthLiteral()
    ensures Segment("month", "01") + "day=03/hour=01/" == "month=01/day=03/hour=01/"
  {
    assert Segment("month", "01") == "month=01/";
  }

  lemma YearLiteral()
    ensures Segment("year", "2020") + "month=01/day=03/hour=01/" == "year=2020/month=01/day=03/hour=01/"
  {
    assert Segment("year", "2020") == "year=2020/";
  }

  lemma PadYear()
    ensures ZeroPad(2020, 4) == "2020"
  {
    assert Digits(2) == "2";
    assert Digits(20) == "20";
    assert Digits(202) == "202";
    assert Digits(2020) == "2020";
    assert Zeros(0) == "";
  }

  lemma PadSmall(n: nat)
    requires 1 <= n <= 9
    ensures ZeroPad(n, 2) == ['0', DigitChar(n)]
  {
    assert Digits(n) == [DigitChar(n)];
    assert Zeros(1) == "0";
  }
}
