/** The metric-definition validator: structure checks, SQL shape checks, the
    live EXPLAIN outcome, the per-file verdict and the batch summary.
    A parsed definition is the YAML mapping restricted to the five keys the
    validator reads (it never looks at any other key): a field absent from the
    map is missing, and the empty string is Python's falsy value for a present
    string. */
module Validator {
  import opened Text
  import opened NamePattern

  datatype Option<T> = None | Some(value: T)

  /** The keys of a metric definition. */
  datatype Field = MetricName | Description | Owner | Schedule | Sql

  /** The YAML key of a field. */
  function Key(f: Field): string {
    match f
    case MetricName => "metric_name"
    case Description => "description"
    case Owner => "owner"
    case Schedule => "schedule"
    case Sql => "sql"
  }

  type Metric = map<Field, string>

  /** The required fields, in the order they are checked and reported. */
  const RequiredFields: seq<Field> := [MetricName, Description, Owner, Schedule, Sql]

  datatype Error =
    | MissingField(field: Field)
    | EmptyField(field: Field)
    | InvalidName(name: string)
    | EmptySql
    | NotSelect
    | MissingKeyword(keyword: Keyword)
    | ExecutionFailed(detail: string)

  /** The keywords every query must contain, in the order they are checked. */
  datatype Keyword = Select | From

  function KeywordText(k: Keyword): string {
    match k
    case Select => "SELECT"
    case From => "FROM"
  }

  datatype Warning =
    | OwnerNotEmail(owner: string)
    | ScheduleNotCron(schedule: string)

  /** The message text each error is reported with. */
  function ErrorText(e: Error): string {
    match e
    case MissingField(f) => "Missing required field: '" + Key(f) + "'"
    case EmptyField(f) => "Field '" + Key(f) + "' cannot be empty"
    case InvalidName(n) => "Invalid metric name '" + n + "'. Only letters, numbers and underscores allowed"
    case EmptySql => "SQL query cannot be empty"
    case NotSelect => "SQL must start with SELECT"
    case MissingKeyword(k) => "SQL missing required keyword: " + KeywordText(k)
    case ExecutionFailed(d) => "SQL execution error: " + d
  }

  /** The message text each warning is reported with. */
  function WarningText(w: Warning): string {
    match w
    case OwnerNotEmail(o) => "Owner '" + o + "' doesn't look like email format"
    case ScheduleNotCron(s) => "Schedule '" + s + "' doesn't match cron format (5 fields expected)"
  }

  /** Errors and warnings of one check. */
  datatype Report = Report(errors: seq<Error>, warnings: seq<Warning>)

  /** The field is present and truthy, i.e. a non-empty string. */
  predicate Filled(m: Metric, f: Field) {
    f in m && m[f] != ""
  }

  /** Every required field is present and non-empty. */
  predicate AllFilled(m: Metric) {
    Filled(m, MetricName) && Filled(m, Description) && Filled(m, Owner)
    && Filled(m, Schedule) && Filled(m, Sql)
  }

  /** The SQL shape rule, applied to the stripped, upper-cased query. */
  predicate SqlShapeOk(sql: string) {
    var s := Upper(Strip(sql));
    StartsWith(s, "SELECT") && Contains(s, "FROM")
  }

  /** A definition every static check accepts. */
  predicate WellFormed(m: Metric) {
    AllFilled(m) && NameMatches(m[MetricName]) && SqlShapeOk(m[Sql])
  }

  // ---------------------------------------------------------------------------
  // Report order

  /** Position of a required field in the checking order. */
  function FieldRank(f: Field): nat {
    match f
    case MetricName => 0
    case Description => 1
    case Owner => 2
    case Schedule => 3
    case Sql => 4
  }

  /** Position of an error kind in the order the validator reports errors:
      required fields in field order, then the name rule, then the SQL checks,
      then the live check. */
  function Rank(e: Error): nat {
    match e
    case MissingField(f) => FieldRank(f)
    case EmptyField(f) => FieldRank(f)
    case InvalidName(_) => 5
    case EmptySql => 6
    case NotSelect => 7
    case MissingKeyword(Select) => 8
    case MissingKeyword(From) => 9
    case ExecutionFailed(_) => 10
  }

  /** Every error ranks strictly below all the errors after it: at most one
      error of each kind, in report order. */
  predicate InReportOrder(errs: seq<Error>) {
    errs == [] || (RanksFrom(errs[1..], Rank(errs[0]) + 1) && InReportOrder(errs[1..]))
  }

  predicate RanksBelow(errs: seq<Error>, bound: nat) {
    forall e :: e in errs ==> Rank(e) < bound
  }

  predicate RanksFrom(errs: seq<Error>, bound: nat) {
    forall e :: e in errs ==> bound <= Rank(e)
  }

  /** Report order is exactly pairwise strictly increasing rank. */
  lemma {:induction false} InReportOrderPairwise(errs: seq<Error>)
    ensures InReportOrder(errs) <==>
      forall i, j :: 0 <= i < j < |errs| ==> Rank(errs[i]) < Rank(errs[j])
  {
    if errs != [] {
      var rest := errs[1..];
      InReportOrderPairwise(rest);
      assert forall k :: 0 < k < |errs| ==> errs[k] == rest[k - 1];
      if InReportOrder(errs) {
        forall i, j | 0 <= i < j < |errs|
          ensures Rank(errs[i]) < Rank(errs[j])
        {
          assert errs[j] in rest;
        }
      }
      if forall i, j :: 0 <= i < j < |errs| ==> Rank(errs[i]) < Rank(errs[j]) {
        forall e | e in rest
          ensures Rank(errs[0]) + 1 <= Rank(e)
        {
          var k :| 0 <= k < |rest| && rest[k] == e;
          assert errs[k + 1] == e;
        }
      }
    }
  }

  /** Two ordered lists, all of the first ranking below `mid` and all of the
      second from `mid` on, concatenate to an ordered list. */
  lemma {:induction false} OrderedConcat(a: seq<Error>, b: seq<Error>, mid: nat)
    requires InReportOrder(a) && InReportOrder(b)
    requires RanksBelow(a, mid) && RanksFrom(b, mid)
    ensures InReportOrder(a + b)
    decreases |a|
  {
    if a == [] {
      assert a + b == b;
    } else {
      var rest := a[1..];
      assert (a + b)[1..] == rest + b;
      assert forall e :: e in rest ==> e in a;
      OrderedConcat(rest, b, mid);
      assert a[0] in a;
      assert forall e :: e in rest + b ==> e in rest || e in b;
    }
  }

  /** A bound on every rank survives concatenation. */
  lemma RanksBelowConcat(a: seq<Error>, b: seq<Error>, bound: nat)
    requires RanksBelow(a, bound) && RanksBelow(b, bound)
    ensures RanksBelow(a + b, bound)
  {
  }

  // ---------------------------------------------------------------------------
  // Structure

  /** The check of one required field. */
  function FieldCheck(m: Metric, f: Field): seq<Error> {
    if f !in m then [MissingField(f)]
    else if m[f] == "" then [EmptyField(f)]
    else []
  }

  /** Required-field errors for `fields`, one check per field in order. */
  function FieldErrors(m: Metric, fields: seq<Field>): (r: seq<Error>)
    ensures |r| <= |fields|
  {
    if fields == [] then [] else FieldCheck(m, fields[0]) + FieldErrors(m, fields[1..])
  }

  /** The field errors name exactly the listed fields that are missing or
      empty, and nothing else. */
  lemma {:induction false} FieldErrorsSpec(m: Metric, fields: seq<Field>)
    ensures forall e :: e in FieldErrors(m, fields) ==> e.MissingField? || e.EmptyField?
    ensures forall f :: MissingField(f) in FieldErrors(m, fields) <==> f in fields && f !in m
    ensures forall f :: EmptyField(f) in FieldErrors(m, fields) <==> f in fields && f in m && m[f] == ""
    ensures FieldErrors(m, fields) == [] <==> forall f :: f in fields ==> Filled(m, f)
  {
    if fields != [] {
      var rest := fields[1..];
      FieldErrorsSpec(m, rest);
      assert forall f :: f in fields <==> f == fields[0] || f in rest;
      assert forall e :: e in FieldErrors(m, fields) <==> e in FieldCheck(m, fields[0]) || e in FieldErrors(m, rest);
    }
  }

  /** Checking a concatenation of field lists checks each part in turn. */
  lemma {:induction false} FieldErrorsAppend(m: Metric, a: seq<Field>, b: seq<Field>)
    ensures FieldErrors(m, a + b) == FieldErrors(m, a) + FieldErrors(m, b)
    decreases |a|
  {
    if a != [] {
      assert (a + b)[0] == a[0];
      assert (a + b)[1..] == a[1..] + b;
      FieldErrorsAppend(m, a[1..], b);
    } else {
      assert a + b == b;
    }
  }

  /** Over distinct fields, there is exactly one error per missing or empty
      field and none for the others. */
  lemma {:induction false} FieldErrorsCount(m: Metric, fields: seq<Field>)
    requires forall i, j :: 0 <= i < j < |fields| ==> fields[i] != fields[j]
    ensures |FieldErrors(m, fields)| == |set f | f in fields && !Filled(m, f)|
    decreases |fields|
  {
    if fields != [] {
      var rest := fields[1..];
      FieldErrorsCount(m, rest);
      var failing := set f | f in fields && !Filled(m, f);
      var failingRest := set f | f in rest && !Filled(m, f);
      assert fields[0] !in rest by {
        forall k | 0 <= k < |rest|
          ensures rest[k] != fields[0]
        {
          assert rest[k] == fields[k + 1];
        }
      }
      assert |FieldErrors(m, fields)| == |FieldCheck(m, fields[0])| + |FieldErrors(m, rest)|;
      if Filled(m, fields[0]) {
        assert failing == failingRest by {
          assert forall f :: f in fields <==> f == fields[0] || f in rest;
        }
      } else {
        assert failing == failingRest + {fields[0]} by {
          assert forall f :: f in fields <==> f == fields[0] || f in rest;
        }
      }
    }
  }

  /** Fields listed in increasing rank give errors in increasing rank:
      at most one per field, in the listed order. */
  lemma {:induction false} FieldErrorsOrdered(m: Metric, fields: seq<Field>)
    requires forall i, j :: 0 <= i < j < |fields| ==> FieldRank(fields[i]) < FieldRank(fields[j])
    ensures InReportOrder(FieldErrors(m, fields))
    ensures RanksBelow(FieldErrors(m, fields), 5)
    ensures |fields| > 0 ==> RanksFrom(FieldErrors(m, fields), FieldRank(fields[0]))
    decreases |fields|
  {
    if fields != [] {
      var rest := fields[1..];
      FieldErrorsOrdered(m, rest);
      var mid := FieldRank(fields[0]) + 1;
      assert |rest| > 0 ==> FieldRank(rest[0]) >= mid;
      OrderedConcat(FieldCheck(m, fields[0]), FieldErrors(m, rest), mid);
    }
  }

  /** The name rule; it applies to any present name, even an empty one. */
  function NameErrors(m: Metric): (r: seq<Error>)
    ensures |r| <= 1 && forall e :: e in r ==> e.InvalidName?
    ensures forall n :: InvalidName(n) in r <==> MetricName in m && n == m[MetricName] && !NameMatches(n)
  {
    if MetricName in m && !NameMatches(m[MetricName]) then [InvalidName(m[MetricName])] else []
  }

  /** The owner rule: a present, non-empty owner without `@` is only warned about. */
  function OwnerWarnings(m: Metric): (r: seq<Warning>)
    ensures |r| <= 1
    ensures forall o :: OwnerNotEmail(o) in r <==> Filled(m, Owner) && o == m[Owner] && '@' !in o
    ensures forall w :: w in r ==> w.OwnerNotEmail?
  {
    if Filled(m, Owner) && '@' !in m[Owner] then [OwnerNotEmail(m[Owner])] else []
  }

  /** The schedule rule: a present, non-empty schedule that does not split
      into five whitespace-separated fields is only warned about. */
  function ScheduleWarnings(m: Metric): (r: seq<Warning>)
    ensures |r| <= 1
    ensures forall s :: ScheduleNotCron(s) in r <==> Filled(m, Schedule) && s == m[Schedule] && |Split(s)| != 5
    ensures forall w :: w in r ==> w.ScheduleNotCron?
  {
    if Filled(m, Schedule) && |Split(m[Schedule])| != 5 then [ScheduleNotCron(m[Schedule])] else []
  }

  /** The required-field errors come in field order, at most one per field,
      and say exactly which fields are missing or empty. */
  lemma RequiredFieldErrors(m: Metric)
    ensures InReportOrder(FieldErrors(m, RequiredFields))
    ensures RanksBelow(FieldErrors(m, RequiredFields), 5)
    ensures forall f :: MissingField(f) in FieldErrors(m, RequiredFields) <==> f !in m
    ensures forall f :: EmptyField(f) in FieldErrors(m, RequiredFields) <==> f in m && m[f] == ""
    ensures FieldErrors(m, RequiredFields) == [] <==> AllFilled(m)
  {
    RequiredFieldsRanked();
    FieldErrorsOrdered(m, RequiredFields);
    FieldErrorsSpec(m, RequiredFields);
    EveryFieldRequired();
  }

  /** The required fields are listed in checking order. */
  lemma RequiredFieldsRanked()
    ensures forall i, j :: 0 <= i < j < |RequiredFields| ==> FieldRank(RequiredFields[i]) < FieldRank(RequiredFields[j])
  {
  }

  /** Every field of a definition is a required one. */
  lemma EveryFieldRequired()
    ensures forall f: Field :: f in RequiredFields
  {
    forall f: Field
      ensures f in RequiredFields
    {
      assert RequiredFields[FieldRank(f)] == f;
    }
  }

  /** `validate_yaml_structure`: required fields, the name rule, and the two
      warning-only checks. */
  function StructureCheck(m: Metric): (r: Report)
    ensures |r.errors| <= 6 && |r.warnings| <= 2
    ensures InReportOrder(r.errors) && RanksBelow(r.errors, 6)
    ensures r.errors == [] <==> AllFilled(m) && NameMatches(m[MetricName])
  {
    RequiredFieldErrors(m);
    OrderedConcat(FieldErrors(m, RequiredFields), NameErrors(m), 5);
    RanksBelowConcat(FieldErrors(m, RequiredFields), NameErrors(m), 6);
    Report(FieldErrors(m, RequiredFields) + NameErrors(m), OwnerWarnings(m) + ScheduleWarnings(m))
  }

  /** Which errors the structure check reports: one per missing or empty
      required field, and one for a present name the pattern rejects. */
  lemma StructureErrorsContents(m: Metric)
    ensures forall f :: MissingField(f) in StructureCheck(m).errors <==> f !in m
    ensures forall f :: EmptyField(f) in StructureCheck(m).errors <==> f in m && m[f] == ""
    ensures forall n :: InvalidName(n) in StructureCheck(m).errors <==>
      MetricName in m && n == m[MetricName] && !NameMatches(n)
  {
    var fieldErrors := FieldErrors(m, RequiredFields);
    var nameErrors := NameErrors(m);
    RequiredFieldErrors(m);
    FieldErrorsSpec(m, RequiredFields);
    assert StructureCheck(m).errors == fieldErrors + nameErrors;
    assert forall e :: e in fieldErrors + nameErrors <==> e in fieldErrors || e in nameErrors;
  }

  /** Which warnings the structure check reports: each exactly when its rule
      fails on a non-empty value. */
  lemma StructureWarningsContents(m: Metric)
    ensures forall o :: OwnerNotEmail(o) in StructureCheck(m).warnings <==>
      Filled(m, Owner) && o == m[Owner] && '@' !in o
    ensures forall s :: ScheduleNotCron(s) in StructureCheck(m).warnings <==>
      Filled(m, Schedule) && s == m[Schedule] && |Split(s)| != 5
  {
  }

  /** An empty name is reported twice: as an empty field and as a name the
      pattern rejects. */
  lemma EmptyNameTwoErrors(m: Metric)
    requires MetricName in m && m[MetricName] == ""
    ensures |StructureCheck(m).errors| >= 2
    ensures StructureCheck(m).errors[0] == EmptyField(MetricName)
    ensures InvalidName("") in StructureCheck(m).errors
  {
  }

  // ---------------------------------------------------------------------------
  // SQL shape

  /** The keyword checks on the stripped, upper-cased query `s`: the start
      check, then each required keyword in turn. */
  function ShapeErrors(s: string): (r: seq<Error>)
    ensures |r| <= 3
    ensures InReportOrder(r) && RanksFrom(r, 7) && RanksBelow(r, 10)
    ensures r == [] <==> StartsWith(s, "SELECT") && Contains(s, "FROM")
  {
    var startOk := StartsWith(s, "SELECT");
    var hasSelect := Contains(s, "SELECT");
    var hasFrom := Contains(s, "FROM");
    assert startOk ==> hasSelect by {
      if startOk { StartsWithContains(s, "SELECT"); }
    }
    var notSelect := if !startOk then [NotSelect] else [];
    var missingSelect := if !hasSelect then [MissingKeyword(Select)] else [];
    var missingFrom := if !hasFrom then [MissingKeyword(From)] else [];
    OrderedConcat(missingSelect, missingFrom, 9);
    OrderedConcat(notSelect, missingSelect + missingFrom, 8);
    notSelect + (missingSelect + missingFrom)
  }

  /** Each shape error is reported exactly when its rule fails; a query that
      lacks SELECT altogether also fails the start check. */
  lemma ShapeErrorsSpec(s: string)
    ensures NotSelect in ShapeErrors(s) <==> !StartsWith(s, "SELECT")
    ensures MissingKeyword(Select) in ShapeErrors(s) <==> !Contains(s, "SELECT")
    ensures MissingKeyword(From) in ShapeErrors(s) <==> !Contains(s, "FROM")
    ensures forall e :: e in ShapeErrors(s) ==> e.NotSelect? || e.MissingKeyword?
    ensures MissingKeyword(Select) in ShapeErrors(s) ==> NotSelect in ShapeErrors(s)
  {
  }

  /** The keyword rule is a substring test, not a word test: a query whose
      only FROM is part of a column name passes the shape check. */
  lemma KeywordsAreSubstrings()
    ensures ShapeErrors("SELECT FROM_DATE") == []
  {
    var s := "SELECT FROM_DATE";
    assert s[..6] == "SELECT";
    assert OccursAt(s, "FROM", 7);
    ContainsSpec(s, "FROM");
  }

  /** `validate_sql_syntax`: missing or empty SQL is one error and nothing
      else; otherwise the keyword checks on the stripped, upper-cased query. */
  function SqlErrors(m: Metric): (r: seq<Error>)
    ensures |r| <= 3
    ensures InReportOrder(r) && RanksFrom(r, 6) && RanksBelow(r, 10)
    ensures !Filled(m, Sql) ==> r == [EmptySql]
    ensures Filled(m, Sql) ==> r == ShapeErrors(Upper(Strip(m[Sql])))
    ensures r == [] <==> Filled(m, Sql) && SqlShapeOk(m[Sql])
  {
    if !Filled(m, Sql) then [EmptySql]
    else ShapeErrors(Upper(Strip(m[Sql])))
  }

  // ---------------------------------------------------------------------------
  // Live check

  /** `test_sql_execution`. The database engine's answer to `EXPLAIN <sql>` is
      the parameter `explain`: `None` when it succeeds, `Some(message)` when
      it raises. Missing or empty SQL is not sent to the engine. */
  function LiveErrors(m: Metric, explain: Option<string>): (r: seq<Error>)
    ensures |r| <= 1
    ensures r != [] <==> Filled(m, Sql) && explain.Some?
    ensures forall e :: e in r ==> e == ExecutionFailed(explain.value)
  {
    if !Filled(m, Sql) then []
    else match explain
      case None => []
      case Some(message) => [ExecutionFailed(message)]
  }

  // ---------------------------------------------------------------------------
  // One file

  /** All checks of one parsed definition: structure errors, then SQL shape
      errors, then live errors; the warnings come from the structure check only. */
  function ValidateMetric(m: Metric, explain: Option<string>): (r: Report)
    ensures InReportOrder(r.errors)
    ensures r.errors == [] <==> WellFormed(m) && explain.None?
  {
    var structure := StructureCheck(m);
    var sql := SqlErrors(m);
    var live := LiveErrors(m, explain);
    OrderedConcat(structure.errors, sql, 6);
    OrderedConcat(structure.errors + sql, live, 10);
    Report(structure.errors + sql + live, structure.warnings)
  }

  /** The combined report holds exactly the errors of the three checks and
      only the structure check's warnings. */
  lemma ValidateMetricCollects(m: Metric, explain: Option<string>)
    ensures ValidateMetric(m, explain).warnings == StructureCheck(m).warnings
    ensures forall e :: e in ValidateMetric(m, explain).errors <==>
      e in StructureCheck(m).errors || e in SqlErrors(m) || e in LiveErrors(m, explain)
  {
  }

  /** A definition file as the loader hands it over: either it could not be
      read or parsed, or it holds a definition (with the engine's answer to
      its EXPLAIN). */
  datatype MetricFile = Unreadable | Loaded(metric: Metric, explain: Option<string>)

  /** `validate_metric_file`: a file passes iff it parsed and produced no error. */
  function ValidateFile(f: MetricFile): (passed: bool)
    ensures passed <==> f.Loaded? && WellFormed(f.metric) && f.explain.None?
  {
    match f
    case Unreadable => false
    case Loaded(m, explain) => ValidateMetric(m, explain).errors == []
  }

  /** A non-empty owner without `@` is reported as a warning in the file's
      report, whatever else the file holds. */
  lemma OwnerWarned(m: Metric, explain: Option<string>)
    requires Filled(m, Owner) && '@' !in m[Owner]
    ensures OwnerNotEmail(m[Owner]) in ValidateMetric(m, explain).warnings
  {
  }

  /** An owner without `@` is reported as a warning, and the file still
      passes when nothing else is wrong. */
  lemma OwnerWarningStillPasses(m: Metric)
    requires WellFormed(m) && '@' !in m[Owner]
    ensures OwnerNotEmail(m[Owner]) in ValidateMetric(m, None).warnings
    ensures ValidateFile(Loaded(m, None))
  {
  }

  /** Replacing a present owner by any other non-empty owner never changes
      the verdict: the owner rule only warns. */
  lemma OwnerValueIrrelevant(m: Metric, owner: string, explain: Option<string>)
    requires Filled(m, Owner) && owner != ""
    ensures ValidateFile(Loaded(m[Owner := owner], explain)) == ValidateFile(Loaded(m, explain))
  {
  }

  /** Replacing a present schedule by any other non-empty schedule never
      changes the verdict: the schedule rule only warns. */
  lemma ScheduleValueIrrelevant(m: Metric, schedule: string, explain: Option<string>)
    requires Filled(m, Schedule) && schedule != ""
    ensures ValidateFile(Loaded(m[Schedule := schedule], explain)) == ValidateFile(Loaded(m, explain))
  {
  }

  // ---------------------------------------------------------------------------
  // Batch

  /** The verdict of each file, in order. */
  function Verdicts(files: seq<MetricFile>): (v: seq<bool>)
    ensures |v| == |files|
  {
    if files == [] then [] else Verdicts(files[..|files| - 1]) + [ValidateFile(files[|files| - 1])]
  }

  /** The verdict at position `k` is the verdict of the `k`-th file. */
  lemma {:induction false} VerdictAt(files: seq<MetricFile>, k: int)
    requires 0 <= k < |files|
    ensures Verdicts(files)[k] == ValidateFile(files[k])
    decreases |files|
  {
    if k < |files| - 1 {
      VerdictAt(files[..|files| - 1], k);
    }
  }

  /** Every file of the batch passes. */
  predicate AllPass(files: seq<MetricFile>) {
    forall k {:trigger ValidateFile(files[k])} :: 0 <= k < |files| ==> ValidateFile(files[k])
  }

  /** When every verdict is a pass, every file passes. */
  lemma VerdictsPassAll(files: seq<MetricFile>)
    requires forall k :: 0 <= k < |files| ==> Verdicts(files)[k]
    ensures AllPass(files)
  {
    forall k | 0 <= k < |files|
      ensures ValidateFile(files[k])
    {
      VerdictAt(files, k);
    }
  }

  /** When every file passes, every verdict is a pass. */
  lemma AllPassVerdicts(files: seq<MetricFile>)
    requires AllPass(files)
    ensures forall k :: 0 <= k < |files| ==> Verdicts(files)[k]
  {
    forall k | 0 <= k < |files|
      ensures Verdicts(files)[k]
    {
      assert ValidateFile(files[k]);
      VerdictAt(files, k);
    }
  }

  /** Number of `true` entries. */
  function CountTrue(bs: seq<bool>): (n: nat)
    ensures n <= |bs|
    ensures n == |bs| <==> forall k :: 0 <= k < |bs| ==> bs[k]
  {
    if bs == [] then 0
    else
      var n := CountTrue(bs[..|bs| - 1]);
      assert forall k :: 0 <= k < |bs| - 1 ==> bs[..|bs| - 1][k] == bs[k];
      n + (if bs[|bs| - 1] then 1 else 0)
  }

  lemma CountTrueStep(bs: seq<bool>, i: int)
    requires 0 <= i < |bs|
    ensures CountTrue(bs[..i + 1]) == CountTrue(bs[..i]) + (if bs[i] then 1 else 0)
  {
    assert bs[..i + 1][..i] == bs[..i];
  }

  /** The counting loop of `validate_all_metrics` over the verdicts of the
      files in turn. With no verdicts it reports failure without counting. */
  method Summarize(verdicts: seq<bool>) returns (success: bool, passed: nat, failed: nat)
    ensures |verdicts| == 0 ==> !success && passed == 0 && failed == 0
    ensures passed + failed == |verdicts|
    ensures passed == CountTrue(verdicts)
    ensures success <==> |verdicts| > 0 && failed == 0
    ensures success <==> |verdicts| > 0 && forall k :: 0 <= k < |verdicts| ==> verdicts[k]
  {
    if |verdicts| == 0 {
      return false, 0, 0;
    }
    passed, failed := 0, 0;
    var i := 0;
    while i < |verdicts|
      invariant 0 <= i <= |verdicts|
      invariant passed + failed == i
      invariant passed == CountTrue(verdicts[..i])
    {
      CountTrueStep(verdicts, i);
      if verdicts[i] {
        passed := passed + 1;
      } else {
        failed := failed + 1;
      }
      i := i + 1;
    }
    assert verdicts[..i] == verdicts;
    success := failed == 0;
  }

  /** `validate_all_metrics`: validate every file in turn and count. */
  method ValidateAll(files: seq<MetricFile>) returns (success: bool, passed: nat, failed: nat)
    ensures |files| == 0 ==> !success && passed == 0 && failed == 0
    ensures passed + failed == |files|
    ensures passed == CountTrue(Verdicts(files))
    ensures success <==> |files| > 0 && failed == 0
    ensures success <==> |files| > 0 && AllPass(files)
  {
    success, passed, failed := Summarize(Verdicts(files));
    if success {
      VerdictsPassAll(files);
    }
    if AllPass(files) {
      AllPassVerdicts(files);
    }
  }
}
