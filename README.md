# Striim checkpoint-position injection, modelled in Dafny

The export script fetches every Striim application as TQL text. For each
application with a change-data-capture source, it reads the source's last
checkpoint from the server's checkpoint history and writes that position into
the staged TQL, so that a re-imported application resumes where the old one
stopped. Two companion scripts export users and roles as TQL statements, and
import staged TQL files back into a server.

This project models the text-processing core of the three scripts. Network
calls, files and the zip archive become parameters.

- **Text, Matching, Patterns**: the specific regular expressions the scripts
  use, each written as a hand-made prefix matcher. `re.search` is the
  leftmost match and `re.sub` is leftmost, non-overlapping substitution that
  resumes at each match's end. There is no general regex engine.
- **Positions**: the parsing tail of `get_checkpoint_history`. Four
  label-keyed rules (MySQL binlog, SQL Server LSN, MongoDB date-time, Oracle
  SCN) are tried in a fixed order, each rendered as its `format_string`.
- **Readers**: `get_reader_type`. Six reader tokens in a fixed order map onto
  four families.
- **Fields, Patcher**: `update_tql_with_position`.
  - MySQL and SQL Server sources replace a `'NOW'` placeholder.
  - MongoDB and Oracle sources overwrite an existing start field, or insert
    one before the `) OUTPUT` that closes the source's property list.
  - The file is reported changed exactly when its text changed.
- **ExportSteps**:
  - the type-prefix filter and drop loop of `drop_types_by_prefix`;
  - the zip-entry selection and staging of `extract_applications_from_zip`.
- **ExportRun**: the per-application loop of the export script's `main`, with
  its six counters. The classifier, the checkpoint lookup and the rewriter are
  carried in a `Pass` record. `Live(reports)` builds the record from this
  model's own functions, with the checkpoint lookup as `FromHistory` applied to
  the reported history of each application.
- **Users**:
  - the user and role name collection;
  - the `CREATE USER` statements;
  - the role filter;
  - the `CREATE ROLE` / `GRANT` blocks of `striim_export_users.py`.
- **ImportApps**:
  - `extract_app_name` and `get_full_app_name`;
  - the per-file import loop of `striim_import_apps.py`, with its counters and
    server calls.
- **Counting**: a counting function over sequences and the facts about it
  that the counter loops use.

Two behaviours of the code that a reader might not expect, which the model
keeps:

- **Second run of an existing field.** For a MongoDB or Oracle document that
  already has its start field, a second run with the same position leaves the
  text as it is, so the function returns `False` the second time, provided
  the position holds no `'`. `Patcher.ExistingFieldUpdate` proves this under
  that condition; a MongoDB position with a `'` in it is not covered (see
  "## Left out").
- **Only one MySQL label present.** With only one of `BinlogName` and
  `BinLogPosition`, the MySQL rule does not fire and the code goes on to the
  SQL Server, MongoDB and Oracle rules, so a summary with one MySQL label can
  still yield a position of another family. `Positions.Extract` states this:
  no MySQL position comes from one label, and nothing is found only when no
  rule matches.

## Model

| member | source | states |
|---|---|---|
| Positions.MySqlRule | striim_export_all_with_checkpoint.py:321-333 | a MySQL position exists iff both the `BinlogName` and the `BinLogPosition` labels match; its name is a non-blank run and its offset a digit run |
| Positions.SqlServerRule | striim_export_all_with_checkpoint.py:335-343 | an LSN position exists iff the case-sensitive `CommitScn:` label is followed by hex digits, and it is made of them |
| Positions.MongoRule | striim_export_all_with_checkpoint.py:345-356 | a date-time position exists iff `UTC DateTime value = ` matches; it holds no `]` |
| Positions.OracleRule | striim_export_all_with_checkpoint.py:358-366 | an SCN position exists iff `CommitSCN[<digits>]` occurs, and it is those digits |
| Positions.RemoveAll | striim_export_all_with_checkpoint.py:350 | `str.replace(part, '')` never lengthens the text and introduces no character |
| Positions.Extract | striim_export_all_with_checkpoint.py:319-368 | every result is well shaped; the rules are tried in the order MySQL, SQL Server, MongoDB, Oracle and the first that fires wins: each kind of result comes exactly when its labels match and no earlier rule's do; a MySQL result never comes from one label; no result only when no rule matches |
| Positions.FromHistory | striim_export_all_with_checkpoint.py:310-372 | an empty history gives no position; only the first entry's summary is parsed; a missing summary is read as empty text; a non-text summary gives no position (the exception handler); a position only ever comes from a text summary |
| Positions.StripMillis | striim_export_all_with_checkpoint.py:348-350 | removing `.000Z` from `<date-time>.000Z` gives back the bare date-time |
| Positions.MySqlSummary | striim_export_all_with_checkpoint.py:321-333 | a summary with `BinlogName: <file>` and `BinLogPosition: <n>` yields exactly that binlog position, ahead of every other rule |
| Positions.SqlServerSummary | striim_export_all_with_checkpoint.py:335-343 | a summary with `CommitScn: <hex>` and no MySQL labels yields that LSN |
| Positions.MongoSummary | striim_export_all_with_checkpoint.py:345-356 | a summary with `UTC DateTime value = <d>.000Z]` yields `d` with the suffix removed |
| Positions.OracleSummary | striim_export_all_with_checkpoint.py:358-366 | a summary with `CommitSCN[<digits>]` and none of the earlier labels yields those digits, with no prefix |
| Positions.OnlyOracle | striim_export_all_with_checkpoint.py:319-368 | on a summary without `B`, `:` or `U`, such as Oracle's `{OpenSCN[..]-CommitSCN[..]-SeqNum[..]}`, only the Oracle rule can fire |
| Readers.FirstDeclaredIsFirst | striim_export_all_with_checkpoint.py:381-405 | the family found belongs to a declared reader with none declared before it; nothing is found only when no reader is declared |
| Readers.TableChain | striim_export_all_with_checkpoint.py:381-405 | the table, tried in order, is the chain MysqlReader, MSSqlReader, MSJet, MongoDBReader, OracleReader, OJet, then none |
| Readers.ClassifyFamilies | striim_export_all_with_checkpoint.py:381-403 | each family iff its token(s) are declared and no earlier family's token is |
| Readers.ClassifyUnrecognized | striim_export_all_with_checkpoint.py:381-405 | no family iff none of the six reader declarations occurs |
| Patcher.Update | striim_export_all_with_checkpoint.py:472-479 | the file is written, and `True` reported, exactly when the rewritten text differs, and then with that text |
| Patcher.SplitPoint | striim_export_all_with_checkpoint.py:443-446 | the insertion point exists iff a source clause matches, and it is the `)` closing its property list |
| Patcher.Insert | striim_export_all_with_checkpoint.py:443-451 | the property is spliced in before that `)` and every other character is kept; without a match the text is unchanged (corrected form, see Findings) |
| Patcher.PlaceholderUpdate | striim_export_all_with_checkpoint.py:421-432 | a MySQL or SQL Server document is written iff it holds a `'NOW'` placeholder for its field |
| Patcher.PlaceholderWritten | striim_export_all_with_checkpoint.py:421-432 | the first placeholder becomes `Field: '<position>'`, nothing before it changes, the text after it is substituted the same way, and with a single placeholder every other character of the document is kept |
| Patcher.PlaceholderSecondRun | striim_export_all_with_checkpoint.py:421-479 | no placeholder survives, and a second run with the same position reports no change, for a position with no `'` and no `<Field>:` in it |
| Patcher.ExistingFieldUpdate | striim_export_all_with_checkpoint.py:434-459 | where the start field exists, its first quoted value is overwritten with nothing before it changed and the rest substituted the same way; with a single field every other character is kept; for a position with no `'`, the value reads back as the position and a second run reports no change |
| Patcher.InsertUpdate | striim_export_all_with_checkpoint.py:441-451 | without the start field, the document is written iff the family's source clause matches |
| Patcher.InsertedFieldUpdate | striim_export_all_with_checkpoint.py:441-470 | an inserted start field reads back as the position, and a second run reports no change, for a position with no `'` and no `<field>:` in it, and a document with no `<field>:` anywhere |
| Patcher.SubRebuiltTwo | striim_export_all_with_checkpoint.py:445-451 | with two matching clauses, the substitution as written puts the first clause, rebuilt, in place of both |
| Patcher.AsWrittenSingleClause | striim_export_all_with_checkpoint.py:445-451 | with a single matching clause the insertion as written equals the corrected splice |
| Patcher.AsWrittenCopiesFirstClause | striim_export_all_with_checkpoint.py:445-451 | for two MongoDB clauses the insertion as written gives the rebuilt first clause twice; the splice changes the first clause only |
| Patcher.InsertKeepsFamily | striim_export_all_with_checkpoint.py:441-470 | inserting a start field whose value holds no `CREATE` leaves the reader classification of the document unchanged, so a second run treats it as the same family |
| Patcher.InsertKeepsDeclares | striim_export_all_with_checkpoint.py:381-405 | for a short field name and a value with no `CREATE`, a reader is declared after the insertion exactly when it was before |
| Locality.DeclaredAcrossInsert | striim_export_all_with_checkpoint.py:381-405 | inserting text at a stop character, with no declaration start inside it, keeps whether a source declaration of the reader is found |
| Patcher.AsWrittenLosesSecondSource | striim_export_all_with_checkpoint.py:445-451 | on a concrete two-source document the insertion as written and the splice differ |
| Fields.PlaceholderReplaced | striim_export_all_with_checkpoint.py:422-426 | replacing a placeholder with a position other than `NOW` changes the text |
| Fields.PlaceholderRewriteFinal | striim_export_all_with_checkpoint.py:422-432 | after the substitution no placeholder is left, so substituting again changes nothing |
| Fields.QuotedReadBack | striim_export_all_with_checkpoint.py:436-440 | after overwriting, the field's first quoted value is the position |
| Fields.QuotedRewriteStable | striim_export_all_with_checkpoint.py:436-440 | overwriting the field a second time with the same value gives the same text |
| Matching.SubAllStable | striim_export_all_with_checkpoint.py:426 | `re.sub` with a replacement that matches whole is idempotent |
| Matching.SubAllFirstKept | striim_export_all_with_checkpoint.py:440 | after `re.sub` the first match is where the first replacement was written |
| ExportSteps.MatchingTypes | striim_export_all_with_checkpoint.py:137-149 | the kept types are exactly the listed ones that start with `<namespace>.<component>_`, in listed order and with their multiplicity (an order-preserving filter) |
| ExportSteps.DropEach | striim_export_all_with_checkpoint.py:164-174 | one `drop type <t>;` per matching type in order; dropped counts the successes; dropped + failed = matching |
| ExportSteps.DropTypesByPrefix | striim_export_all_with_checkpoint.py:130-181 | fails when signed out or no type is listed; otherwise drops every matching type, and succeeds iff every drop succeeded |
| ExportSteps.EntryForIsFirst | striim_export_all_with_checkpoint.py:265-268 | the entry chosen is the first `.tql` entry that starts with `<app>_`; none iff no entry qualifies |
| ExportSteps.Staged | striim_export_all_with_checkpoint.py:260-276 | an application is staged iff it was asked for and has an entry |
| ExportSteps.StagedDistinct | striim_export_all_with_checkpoint.py:260-291 | the staged applications hold each name once, as the keys of the result dictionary do, even when a name is asked for twice |
| ExportSteps.ExtractApplications | striim_export_all_with_checkpoint.py:252-291 | the returned map has exactly the staged applications, each at `<stage>/<app>.tql`; the writes are exactly `Writes` and the files that exist afterwards exactly `OnDisk`, so a file written earlier in the pass counts as existing |
| ExportSteps.OnDiskMembers | striim_export_all_with_checkpoint.py:260-291 | a file exists after staging iff it existed before or is the path of a listed application with an entry |
| ExportSteps.WritesMembers | striim_export_all_with_checkpoint.py:275-290 | a pair is written iff some listed application has that entry and that path, and overwriting is on or the path did not exist before |
| ExportSteps.WritesOnce | striim_export_all_with_checkpoint.py:278-281 | without overwriting no path is written twice, even for an application listed twice, and every written path exists afterwards |
| ExportSteps.WritesAll | striim_export_all_with_checkpoint.py:278-290 | with overwriting, one write per listed application with an entry |
| ExportSteps.StagedPathInjective | striim_export_all_with_checkpoint.py:275 | different applications are staged at different paths |
| ExportRun.ProcessOne | striim_export_all_with_checkpoint.py:593-632 | one application is counted under its family, as having a checkpoint and as updated exactly as the pass decides, and its final text is the rewriter's |
| ExportRun.ProcessApplications | striim_export_all_with_checkpoint.py:593-632 | the counters are the counts of applications per family, with a checkpoint and updated; each staged file ends as `Final` says |
| ExportRun.CountFamily | striim_export_all_with_checkpoint.py:604-615 | exactly the counter of the reader's family goes up by one |
| ExportRun.StepCounts | striim_export_all_with_checkpoint.py:593-632 | counting one more application adds it wherever it belongs |
| ExportRun.TallyNested | striim_export_all_with_checkpoint.py:637-646 | updated <= with checkpoint <= sum of the per-family counts <= applications |
| ExportRun.FinalChangedOnlyIfUpdated | striim_export_all_with_checkpoint.py:624-627 | a staged file's text changes iff the application is counted as updated |
| Users.CollectNames | striim_export_users.py:111-123 | the names collected are the string values under keys starting with the tag, in order |
| Users.NamesUnderMembers | striim_export_users.py:111-123 | a name is collected iff some object item has a tag-prefixed key with that string value |
| Users.FieldNamesMembers | striim_export_users.py:118-121 | within one object, a name is collected iff a tag-prefixed key has it as a string value |
| Users.KeptRoles | striim_export_users.py:181-183 | the kept names are the order-preserving filter of the roles by `Kept`: present, non-empty and not starting with `<user>.` |
| Users.KeptRolesMembers | striim_export_users.py:182-183 | a role name is kept iff it is present, non-empty and does not start with `<user>.` |
| Users.UserStatementCases | striim_export_users.py:162-189 | a statement exists iff the user is not `admin` or `sys`, the reply has an output entry and some role name in it is non-empty and does not start with `<user>.`; the statement is `CREATE USER <u> IDENTIFIED BY password DEFAULT ROLE <r1, r2, ...>;` for any order-preserving filter `kept` of the roles |
| Users.CreateUserStatements | striim_export_users.py:157-192 | the statements are those of `StatementsFor`, in user order |
| Users.StatementsAreUsers | striim_export_users.py:162-189 | every statement comes from a listed user other than `admin` and `sys` |
| Users.UsersHaveStatements | striim_export_users.py:162-189 | every listed user with a statement gets it in the output |
| Users.ExportUsers | striim_export_users.py:111-192 | succeeds iff some user name is listed, and then emits the statements for the listed users |
| Users.CreateUserInjective | striim_export_users.py:186-188 | the statement determines the user and the joined roles |
| Users.ScanUserRole | striim_export_users.py:317-325 | the nested scan with early exits finds a user role iff the role is some user's name plus one of the four suffixes |
| Users.FilterRoles | striim_export_users.py:306-328 | the loop keeps the roles `ExportedRoles` keeps |
| Users.ExportedRolesFilter | striim_export_users.py:306-328 | the exported roles are the order-preserving filter of the listed roles by not `Global.`, not `System$` and not a user role; membership iff and multiplicity follow |
| Counting.FilterUnique | striim_export_users.py:181-183 | two order-preserving filters of the same sequence by the same predicate are equal |
| Counting.FilterMembers | striim_export_users.py:306-328 | an element is in an order-preserving filter iff it is in the sequence and satisfies the predicate |
| Users.RoleBlock | striim_export_users.py:347-361 | a block is `CREATE ROLE r;`, then `<permission> TO r;` per permission in order, then an empty line |
| Users.LinesForCount | striim_export_users.py:336-364 | the line count is the sum of the described roles' block sizes |
| Users.RoleStatements | striim_export_users.py:336-364 | the loop emits the blocks of the described roles, in order |
| Users.ExportRoles | striim_export_users.py:284-366 | none iff no role is listed; the empty text when every role is filtered out; otherwise the blocks joined by newlines |
| ImportApps.AppName | striim_import_apps.py:223-231 | a name exists iff `CREATE\s+APPLICATION\s+\w+` matches, ignoring case, and it is a word-character run |
| ImportApps.AppNameAt | striim_import_apps.py:228-231 | a text opening with the pieces of `CREATE APPLICATION <name>` yields that name |
| ImportApps.AppNameOfHead | striim_import_apps.py:228-231 | `CREATE APPLICATION <name>` followed by a non-word character yields `name` |
| ImportApps.LastDot | striim_import_apps.py:237 | the last `.` of a name, or none when it has none |
| ImportApps.FullAppName | striim_import_apps.py:234-245 | the result is the application name or the file's stem |
| ImportApps.StemOfTql | striim_import_apps.py:237 | the stem of `<stem>.tql` is `stem` |
| ImportApps.BaseNameOfJoin | striim_import_apps.py:237 | the base name of `dir/<name>` is `name` |
| ImportApps.FullAppNameOfFile | striim_import_apps.py:234-245 | `dir/<ns>.<app>.tql` gives `<ns>.<app>`; a stem without a dot gives the application name |
| ImportApps.ImportOne | striim_import_apps.py:320-384 | one file is imported, deployed and sent the calls that its reply and the flags decide |
| ImportApps.ImportAll | striim_import_apps.py:316-384 | the counters count imported, deployed and failed files, imported + failed = files, and the calls are every file's in order |
| ImportApps.StepCounters | striim_import_apps.py:320-384 | one more file adds its outcome to the counters and its calls to the list |
| ImportApps.DeployedAtMostImported | striim_import_apps.py:356-370 | deployed <= imported |
| ImportApps.NoDeployWithoutFlag | striim_import_apps.py:363 | without `--deploy` nothing is deployed |
| ImportApps.ForceRemovesFirst | striim_import_apps.py:340-352 | with `--force` and a name found, stop, undeploy and drop on the full name come before the import |

## Left out

- HTTP, authentication and every server command are parameters: the checkpoint report, the type list, the drop results, the describe replies, the import replies and the deploy results. The stop, undeploy and drop calls are recorded but their results are ignored, as in the scripts.
- File reads and writes, the zip archive, `mkdir`, directory globbing and sorting are replaced by values. A file that cannot be read is `None`. The zip's entry names are a sequence, and the files already staged are a set.
- Argument parsing, configuration defaults and all printed output are not modelled, including the wrong field name in the "No ... 'NOW' found" message.
- Patcher.ExistingFieldUpdate: it and the other read-back and second-run lemmas (`Patcher.InsertedFieldUpdate`, `Patcher.PlaceholderSecondRun`, `Patcher.PlaceholderUpdate`, `Fields.QuotedReadBack`, `Fields.QuotedRewriteStable`, `Fields.PlaceholderRewriteFinal`) take the position to hold no `'`; the insertion and placeholder ones also take it to hold no `<field>:`, and the placeholder ones take it not to be `NOW`. The MongoDB rule accepts any run without `]`, so a MongoDB position can hold a `'`; then the field pattern `'[^']*'` stops at that quote, and a second run rewrites the text again and reports a change. That case is not stated.
- Patcher.InsertedFieldUpdate: the document is also taken to hold no `<field>:` anywhere, which is stricter than the code's test before inserting (no `<field>:\s*'[^']*'` match, striim_export_all_with_checkpoint.py:436-437 and 455-456). Two documents the code sends down the insertion path are therefore not covered: one with the label followed by an unterminated `'` (such as `startTimestamp: 'x`), where the inserted field's quoted value is read from that earlier quote, so neither the read-back nor the second-run claim holds; and one whose field is double-quoted (`startTimestamp: "x"`), where the code inserts a second field and the claims would hold but are not stated.
- `re.sub` replacement escapes: positions, and the matched source clause that the MongoDB and Oracle insertion rebuilds into its replacement, are taken to hold no backslash, so the replacement text is literal.
- ExportSteps.PathJoin: models `os.path.join` for an application name that does not start with `/`; an absolute name, which `os.path.join` returns on its own, is not modelled, since the names come from the server's `fullName` field (striim_export_all_with_checkpoint.py:233), a `<namespace>.<app>` name, and without that case distinct names get distinct staged paths (`ExportSteps.StagedPathInjective`).
- Patcher.Update: inserts the start field with the corrected single splice `Insert`, not `InsertAsWritten`. With two or more matching source clauses it therefore differs from the code at striim_export_all_with_checkpoint.py:443-451 and 462-470 (see Findings); with one clause the two agree (`Patcher.AsWrittenSingleClause`).
- Patcher.InsertKeepsFamily: requires that the position holds no `CREATE` (ignoring case); positions are digits, hex digits or date-times, so none does.
- `\w`, `\d` and `IGNORECASE` are modelled on ASCII only; Python also accepts other Unicode letters and digits there.
- `update_tql_with_position` with a reader type outside the four families is not modelled; `main` never calls it with one.
- Exceptions inside the scripts are modelled only where they decide an outcome: an unreadable TQL file, and a first import reply that is not an object, both count as failed. Elsewhere the data are taken as well formed, for instance the describe replies' `output` and `roles` fields.
- Users.ExportUsers: writing `users.tql` and `roles.tql`, their headers and the `include_roles` flag are left out; the model stops at the statements.
- ImportApps.FullAppName: its contract names the two possible results; which one is chosen for a given file name is stated by `ImportApps.FullAppNameOfFile`.
- Positions.Extract: the summary is taken to be text. A non-text `sourcePositionSummary`, on which `re.search` raises, is handled in `Positions.FromHistory` as no position.

## Findings

| source | as written | input that shows it | evidently intended | confidence | as-written member | corrected member |
|---|---|---|---|---|---|---|
| striim_export_all_with_checkpoint.py:443-451 (and 462-470 for Oracle) | the replacement is built from the first matching source clause, and `re.sub` then writes it in place of every matching clause | a document with two MongoDB source clauses separated by a blank, `FirstClause + " " + SecondClause` | insert the start field into the first matching clause only and keep every other clause | not executed | Patcher.InsertAsWritten (Patcher.AsWrittenCopiesFirstClause, Patcher.AsWrittenLosesSecondSource) | Patcher.Insert (Patcher.InsertedFieldUpdate) |
