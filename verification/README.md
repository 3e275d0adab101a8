# Metric definitions: validator and database maintenance

This project models two parts of a small metrics pipeline in Dafny.

The first is the metric-definition validator (`MetricValidator`). A metric is a YAML mapping with five required keys: `metric_name`, `description`, `owner`, `schedule` and `sql`. The validator runs four checks:

- **Structure.** Every required field must be present and non-empty. The name must match `^[a-zA-Z_][a-zA-Z0-9_]*$`.
- **Warnings.** The owner should look like an e-mail address and the schedule like a five-field cron line. These only produce warnings.
- **SQL shape.** After stripping and upper-casing, the SQL must start with `SELECT` and contain both `SELECT` and `FROM`.
- **Live check.** The database engine must accept `EXPLAIN <sql>`.

A file passes exactly when the three error lists together are empty. A batch passes when it has at least one file and no file fails.

The second is the maintenance script. "Cleanup" drops every table except the three source tables `customers`, `orders` and `order_items`. "Reset" drops every table, but only after the answer `y` or `Y`. A menu chooses between the two.

Modules:

- `Text` (text.dfy): the Python string operations the checks rely on, on ASCII text. These are `isspace`, `upper`, `lower`, `strip`, `startswith`, the substring test `in` and `split()`.
- `NamePattern` (name_pattern.dfy): the metric-name regular expression. It includes Python's rule that `$` also matches just before one final line feed.
- `Validator` (validator.dfy):
  - Metrics are maps from the five fields to strings. A field absent from the map is missing, and the empty string is the falsy value.
  - Errors and warnings are datatypes. `ErrorText` and `WarningText` give the exact message of each.
  - The order of the error list is captured by `Rank` and `InReportOrder`: field checks first, then the name rule, the SQL checks and the live check.
- `Maintenance` (maintenance.dfy): the database is the set of its table names. `DROP TABLE IF EXISTS` is set removal, and a listing query is a set.

Two outside inputs become parameters:

- The engine's answer to `EXPLAIN` is `explain: Option<string>`. `None` means it was accepted; `Some(message)` means it raised with that message.
- The loaded file is a `MetricFile`: either `Unreadable`, or a metric together with that answer.

## Model

| member | source | states |
|---|---|---|
| Text.UpperSpec | src/validate_yaml.py:52 | `upper()` (`Text.Upper`) maps each character on its own and leaves no lower-case ASCII letter |
| Text.LowerSpec | src/clean_database.py:47 | `lower()` (`Text.Lower`) maps each character on its own and leaves no upper-case ASCII letter |
| Text.StripSpec | src/validate_yaml.py:52 | `strip()` (`Text.Strip`) returns a contiguous piece of the input with no whitespace at either end, and everything cut off before and after it is whitespace; the result is empty exactly when the input is all whitespace |
| Text.TrimStartSpec | src/validate_yaml.py:52 | the leading whitespace removed by `strip()` is all whitespace, and what is left is a suffix of the input that does not start with whitespace |
| Text.TrimEndSpec | src/validate_yaml.py:52 | the trailing whitespace removed by `strip()` is all whitespace, and what is left is a prefix of the input that does not end with whitespace |
| Text.ContainsSpec | src/validate_yaml.py:61 | the substring test `keyword in sql` (`Text.Contains`) holds exactly when the keyword occurs at some position |
| Text.SplitAtSpace | src/validate_yaml.py:39 | `split()` (`Text.Split`) cuts at every whitespace character: the two sides split independently |
| Text.SplitWord | src/validate_yaml.py:39 | a run without whitespace splits into itself, as one field |
| Text.SplitAllSpace | src/validate_yaml.py:39 | a whitespace-only schedule splits into no fields |
| NamePattern.MatchName | src/validate_yaml.py:28 | the anchored pattern run over the name accepts exactly the names `NamePattern.NameMatches` describes: an identifier, optionally followed by a single line feed |
| NamePattern.LeadingDigitRejected | src/validate_yaml.py:28 | a name whose first character is a digit is rejected |
| NamePattern.SpaceRejected | src/validate_yaml.py:28 | a name with a space anywhere is rejected |
| NamePattern.Examples | src/validate_yaml.py:28 | `2revenue`, `daily revenue`, an empty name and a name with two final line feeds are rejected; `daily_revenue` is accepted, and so is the same name with one final line feed |
| Validator.FieldErrorsSpec | src/validate_yaml.py:19-23 | the field checks (`Validator.FieldErrors`, one `Validator.FieldCheck` per field) report "missing" exactly for the listed fields that are absent, "cannot be empty" exactly for those present but empty, and nothing else; no error at all exactly when every listed field is filled |
| Validator.FieldErrorsCount | src/validate_yaml.py:19-23 | over distinct fields there is exactly one error per missing or empty field |
| Validator.FieldErrorsOrdered | src/validate_yaml.py:10-23 | fields checked in increasing order give errors in the same order, at most one per field |
| Validator.FieldErrorsAppend | src/validate_yaml.py:19-23 | checking two lists of fields one after the other gives the errors of the first followed by those of the second |
| Validator.RequiredFieldErrors | src/validate_yaml.py:10-23 | over the five required fields, every absent field gives one "missing" and every empty one gives one "cannot be empty", in the order `metric_name`, `description`, `owner`, `schedule`, `sql`; no error exactly when all five are filled |
| Validator.NameErrors | src/validate_yaml.py:26-29 | "invalid metric name" is reported, with the name, exactly when a name is present (even an empty one) and the pattern rejects it |
| Validator.OwnerWarnings | src/validate_yaml.py:32-34 | the owner warning is given exactly for a present, non-empty owner without `@` |
| Validator.ScheduleWarnings | src/validate_yaml.py:37-40 | the schedule warning is given exactly for a present, non-empty schedule whose whitespace split does not have five fields |
| Validator.StructureCheck | src/validate_yaml.py:13-42 | the structure errors are in report order, at most six of them, and there are none exactly when all fields are filled and the name matches |
| Validator.StructureErrorsContents | src/validate_yaml.py:19-29 | the structure errors are exactly one per missing field, one per empty field, and one for a rejected name |
| Validator.StructureWarningsContents | src/validate_yaml.py:31-40 | the structure warnings are exactly the owner and schedule warnings, each under its rule |
| Validator.EmptyNameTwoErrors | src/validate_yaml.py:19-29 | an empty name is reported twice: first as an empty field, and again as a name the pattern rejects |
| Validator.ShapeErrors | src/validate_yaml.py:52-62 | the shape errors are in report order, at most three of them, and there are none exactly when the query starts with SELECT and contains FROM |
| Validator.ShapeErrorsSpec | src/validate_yaml.py:54-62 | each shape error appears exactly when its rule fails; a missing SELECT always comes with the start error |
| Validator.KeywordsAreSubstrings | src/validate_yaml.py:59-62 | the keyword rule tests substrings, not words: `SELECT FROM_DATE` passes the shape check though it has no FROM clause |
| Validator.SqlErrors | src/validate_yaml.py:44-64 | missing or empty SQL gives the single error "SQL query cannot be empty"; otherwise the shape errors of the stripped, upper-cased query; no error exactly when the SQL is filled and well shaped |
| Validator.LiveErrors | src/validate_yaml.py:66-86 | an execution error, carrying the engine's message, is reported exactly when the SQL is filled and the engine rejects it |
| Validator.ValidateMetric | src/validate_yaml.py:104-110 | the combined error list is in report order, and it is empty exactly when the definition is well formed and the engine accepts the SQL |
| Validator.ValidateMetricCollects | src/validate_yaml.py:105-114 | the combined report holds exactly the errors of the three checks, and only the structure warnings |
| Validator.ValidateFile | src/validate_yaml.py:88-127 | a file passes exactly when it was read and parsed, its definition is well formed, and the engine accepts its SQL |
| Validator.OwnerWarned | src/validate_yaml.py:32-34 | a non-empty owner without `@` always shows up as a warning in the file's report |
| Validator.OwnerWarningStillPasses | src/validate_yaml.py:104-127 | a well-formed definition whose owner lacks `@` gets the warning and still passes |
| Validator.OwnerValueIrrelevant | src/validate_yaml.py:112-127 | replacing a non-empty owner by any other non-empty owner never changes the verdict |
| Validator.ScheduleValueIrrelevant | src/validate_yaml.py:112-127 | replacing a non-empty schedule by any other non-empty schedule never changes the verdict |
| Validator.InReportOrderPairwise | src/validate_yaml.py:110 | report order means strictly increasing kind between every pair of errors, so no kind is reported twice |
| Validator.OrderedConcat | src/validate_yaml.py:110 | concatenating ordered lists whose kinds do not interleave keeps report order |
| Validator.CountTrue | src/validate_yaml.py:140-147 | the count of passing files is at most the number of files, and equals it exactly when every file passes |
| Validator.VerdictAt | src/validate_yaml.py:143-147 | the batch's verdict list (`Validator.Verdicts`) at each position is the verdict of the file at that position |
| Validator.Summarize | src/validate_yaml.py:134-156 | with no verdicts the batch fails and counts nothing; otherwise passed plus failed is the number of files, passed is the number of passing files, and the batch succeeds exactly when none failed, that is exactly when every file passes |
| Validator.VerdictsPassAll | src/validate_yaml.py:143-147 | when every verdict of the batch is a pass, every file passes |
| Validator.AllPassVerdicts | src/validate_yaml.py:143-147 | when every file passes, every verdict of the batch is a pass |
| Validator.ValidateAll | src/validate_yaml.py:129-156 | with no files the batch fails and counts nothing; otherwise passed plus failed is the number of files, passed is the number of files that pass, and the batch succeeds exactly when none failed, that is exactly when there is a file and every file passes (`Validator.AllPass`) |
| Maintenance.DropSpec | src/clean_database.py:22-25 | after dropping (`Maintenance.Drop`) a list of names with IF EXISTS, exactly the tables never named remain |
| Maintenance.DropTwice | src/clean_database.py:24 | dropping the same names again changes nothing, because a missing table is skipped |
| Maintenance.Cleanup | src/clean_database.py:13-25 | cleanup, which drops the listing of non-base tables (`Maintenance.MetricTables`), leaves exactly the base tables that were there |
| Maintenance.CleanupIdempotent | src/clean_database.py:13-27 | after a cleanup, the listing finds no metric table and a second cleanup changes nothing |
| Maintenance.DropListed | src/clean_database.py:20-25 | dropping a listing one table at a time drops each listed table exactly once, in some order, and leaves the rest |
| Maintenance.CleanupDatabase | src/clean_database.py:4-41 | `cleanup_database` drops each non-base table exactly once, leaves exactly the base tables that were there, and reports success |
| Maintenance.ConfirmedIff | src/clean_database.py:46-47 | `confirm.lower() == 'y'` (`Maintenance.Confirmed`) holds exactly for the answers `y` and `Y` |
| Maintenance.ConfirmationExamples | src/clean_database.py:46-49 | `y` and `Y` confirm; `yes`, `n` and the empty answer do not |
| Maintenance.ResetDatabase | src/clean_database.py:43-73 | without confirmation, reset fails and nothing changes; with it, every table is dropped once, base tables included, and nothing remains |
| Maintenance.Menu | src/clean_database.py:80-87 | choice `1` cleans up and choice `2` runs the confirmation-gated reset; any other input changes nothing. No table is ever created, and base tables disappear only in a confirmed reset |

## Left out

- YAML parsing, file reading and globbing are left out. A file is either `Unreadable` or an already parsed definition, and the batch is the sequence of files in glob order.
- Printing, `exit(1)` and `input()` are left out. The menu choice and the reset answer are string parameters.
- Non-mapping YAML documents and non-string field values are left out. These include the crash on a null name at src/validate_yaml.py:28, a `None` document at src/validate_yaml.py:105, and numbers or lists as values.
- Keys other than the five required ones are left out, because no check reads them.
- Unicode is left out: `upper`, `lower`, `strip`, `split` and `isspace` are modelled on ASCII only. The confirmation result does not depend on this, since only `y` and `Y` lower-case to `y` in Unicode too.
- `test_sql_execution` is left out as an engine call. Its connection and the `EXPLAIN` itself become the `explain` parameter, so whether the engine accepts a query is not modelled.
- The failure paths of `cleanup_database` and `reset_database` (src/clean_database.py:35-37 and 67-69) are left out. They come from engine exceptions, so cleanup always succeeds in this model.
- Maintenance.CleanupDatabase treats table names as exact strings. DuckDB folds the case of the unquoted names in `DROP TABLE`, and views listed by `information_schema.tables` are not modelled.
- The order in which the engine lists tables is left out. The model drops them in an arbitrary order, and every property holds for every order.
- The message texts of `ErrorText` and `WarningText` carry no contract.
- src/run_metrics.py and src/setup_database.py are not part of this model. They consist of engine calls, and their pass/fail counting repeats `validate_all_metrics`.
