# Data breach detection — a Dafny model of the transfer monitor

The application tails the log of a file-transfer client and rebuilds the current transfer
session from it: who opened the connection, which local file was put, and which remote
directory is current. On every upload it decides whether the pair (local path, remote path)
is allowed by a policy table loaded from a mapping sheet, and it appends a record with
status `Data breach` or `Secure` to an operations sheet.

The model covers:

- **Java text semantics** (`java_text.dfy`, module `JavaText`): `String.split` with a
  one-character separator, exactly as Java does it: a string without the separator gives
  `[s]` (so `""` gives `[""]`), otherwise trailing empty pieces are dropped (`"a/"` gives
  `["a"]`, `"/"` gives `[]`) and leading and interior empty pieces stay. Also the set of
  characters the regex dot refuses (the Java line terminators).
- **The breach check** (`path_matcher.dfy`, module `PathMatcher`): the prefixes of a path
  (the first `k` pieces of its split re-joined with the separator), the existential
  predicate "some (local prefix, remote prefix) pair is permitted", and the fold that builds
  the policy table `map<string, set<string>>` from the mapping sheet's cell pairs.
- **The line shapes** (`log_lines.dfy`, module `LogLines`): the three patterns
  `^.*open "([^@]*)@.*$`, `^.*put "([^"]+)".*$` and `^.*New directory is: "(.*)"$` as
  predicates over the line, the capture group taken at the rightmost keyword position that
  completes the shape (the greedy leading `.*`), the leading `yyyy-MM-dd HH:mm:ss` stamp,
  and the ordered classification of a line.
- **The record** (`models.dfy`, module `Models`): the `IO` bean with its five fields,
  getters and setters, and the row written for it.
- **The application** (`application.dfy`, module `Application`): class
  `SecurityApplication` with the policy table, the three session fields and the
  operations trace; `CheckForDataBreach` as the nested loop of the source proved equal to
  the predicate; `HandleFileUpload`; `Step` (one log line) and `RunMonitor` (the loop over
  the lines) proved against a replay function; `InitializeMappingSheet`.

An empty local or remote path does not give zero prefixes. Java's `split` returns `[""]`
for it, so it has one empty prefix `""`, which a table entry `"" -> {""}` authorises
(`PathMatcher.EmptyPathHasEmptyPrefix`, `PathMatcher.FullPathRuleAuthorizes`). A path made
only of separators splits to no pieces: it has no prefixes and is always a breach
(`PathMatcher.SeparatorOnlyLocalPathIsBreach`).

A path that ends in its separator is never one of its own prefixes. `split` drops the
trailing empty piece, so every prefix the check builds is shorter than the path
(`PathMatcher.TrailingSeparatorPrefixesShorter`, for either separator). So the rule
`C:\Finance -> sftp/partnerA/` does not authorise a transfer to `sftp/partnerA/`
(`PathMatcher.TrailingSeparatorRuleNeverMatches`); the rule must name `sftp/partnerA`.

The date format's calendar reading is a parameter: the class holds
`stampTime: string -> int`, the milliseconds of a 19-character stamp. The start time of
monitoring and the clock readings for the records are parameters of `RunMonitor`.

## Model

| member | source | states |
|---|---|---|
| `JavaText.JavaSplit` | src/com/data/security/SecurityApplication.java:306-307 | no piece contains the separator; a string without the separator splits to itself alone; otherwise the last piece, if any, is non-empty |
| `JavaText.SplitJoinRoundTrip` | src/com/data/security/SecurityApplication.java:306-307 | splitting the join of separator-free pieces (last one non-empty unless alone) gives the pieces back |
| `JavaText.JavaSplitPrefixes` | src/com/data/security/SecurityApplication.java:306-321 | every re-joined prefix of the split is a string prefix of the path; a path not ending in its separator re-joins to itself |
| `PathMatcher.Prefixes` | src/com/data/security/SecurityApplication.java:308-321 | one prefix per split piece, each a string prefix of the path |
| `PathMatcher.IsAuthorized` | src/com/data/security/SecurityApplication.java:304-324 | defines the check's positive outcome: some (local prefix, remote prefix) pair has a rule; `CheckForDataBreach` is proved equal to its negation |
| `PathMatcher.IsBreach` | src/com/data/security/SecurityApplication.java:304-324 | defines a breach as no permitted (local prefix, remote prefix) pair |
| `PathMatcher.FullPathIsLastPrefix` | src/com/data/security/SecurityApplication.java:310-321 | a path not ending in its separator is its own last prefix |
| `PathMatcher.FullPathRuleAuthorizes` | src/com/data/security/SecurityApplication.java:316-317 | a rule naming the whole local and whole remote path makes the transfer not a breach, when neither path ends in its separator |
| `PathMatcher.TrailingSeparatorPrefixesShorter` | src/com/data/security/SecurityApplication.java:306-321 | every prefix of a path ending in its separator is strictly shorter than the path |
| `PathMatcher.TrailingSeparatorRuleNeverMatches` | src/com/data/security/SecurityApplication.java:304-324 | a rule from a local path to a remote path ending in `/` leaves a transfer between exactly those paths a breach |
| `PathMatcher.AuthorizationMonotone` | src/com/data/security/SecurityApplication.java:316-317 | adding keys or values to the table never turns "not a breach" into "breach" |
| `PathMatcher.EmptyPathHasEmptyPrefix` | src/com/data/security/SecurityApplication.java:306-307 | the empty path has exactly one prefix, the empty string |
| `PathMatcher.SeparatorsOnlyHaveNoPrefixes` | src/com/data/security/SecurityApplication.java:306-307 | a path of separators only has no prefixes |
| `PathMatcher.SeparatorOnlyLocalPathIsBreach` | src/com/data/security/SecurityApplication.java:304-324 | a local path of separators only is a breach whatever the table and remote path |
| `PathMatcher.ScenarioPrefixRuleAuthorizes` | src/com/data/security/SecurityApplication.java:304-324 | rule `C:\Finance -> sftp/partnerA` authorises `C:\Finance\report.csv` to `sftp/partnerA/incoming` |
| `PathMatcher.ScenarioSiblingIsBreach` | src/com/data/security/SecurityApplication.java:304-324 | the same rule does not authorise `sftp/partnerB/incoming` |
| `PathMatcher.AddPair` | src/com/data/security/SecurityApplication.java:287-293 | after pair (k, v) the key's set is its old set plus v (a new key gets `{v}`); every other key is unchanged; no rule is lost |
| `PathMatcher.RowPairs` | src/com/data/security/SecurityApplication.java:284-286 | a row yields cells 0/1, 2/3, ... as (key, value) pairs, a lone last cell none |
| `PathMatcher.ReadPairs` | src/com/data/security/SecurityApplication.java:279-298 | defines the cell pairs read, row after row in sheet order, and whether the read completed: the first row with an odd cell count contributes its complete pairs and ends the read |
| `PathMatcher.FoldPairs` | src/com/data/security/SecurityApplication.java:287-293 | defines the table after adding the pairs in order, each by `AddPair` |
| `PathMatcher.FoldPairsPermits` | src/com/data/security/SecurityApplication.java:284-294 | the filled table permits exactly the old rules plus the pairs read, both directions |
| `PathMatcher.FoldPairsExtends` | src/com/data/security/SecurityApplication.java:284-294 | reading pairs never removes a rule |
| `PathMatcher.CompleteReadPermitsEveryRowPair` | src/com/data/security/SecurityApplication.java:279-295 | when every row has an even number of cells the read completes and every cell pair is read |
| `Application.ReadPairsStopsAtFailure` | src/com/data/security/SecurityApplication.java:284-298 | once a row ends on a key without a value, no later row is read |
| `Application.FoldPairsAppend` | src/com/data/security/SecurityApplication.java:279-295 | folding row after row equals folding all the pairs in order |
| `LogLines.TailFits` | src/com/data/security/SecurityApplication.java:92-102 | defines what must follow the keyword: for a user, an `@` and a terminator-free rest; for a put, a non-empty quote-free group, a `"` and a terminator-free rest; for a directory, a group up to a `"` that ends the line |
| `LogLines.MatchAt` | src/com/data/security/SecurityApplication.java:92-102 | defines a whole-line match with the keyword at a given position: terminator-free text before it and a fitting tail after it |
| `LogLines.Matches` | src/com/data/security/SecurityApplication.java:188 | defines `String.matches` for a shape: a match at some keyword position |
| `LogLines.GroupAt` | src/com/data/security/SecurityApplication.java:92-102 | the captured group starts right after the keyword |
| `LogLines.Find` | src/com/data/security/SecurityApplication.java:188-206 | a group exists iff the line matches; it is taken at the rightmost keyword position completing the shape; a user has no `@`; a local path is non-empty and has no `"` |
| `LogLines.IndexOf` | src/com/data/security/SecurityApplication.java:102 | the position found holds the character and none before it does (the `[^@]*` / `[^"]+` group stops at the first one) |
| `LogLines.UserLineYieldsUser` | src/com/data/security/SecurityApplication.java:188-192 | a line `pre open "u@rest` gives user `u`, whatever user shapes `pre` already holds and whatever `@` follow, when `pre` and `rest` hold no line terminator, `u` holds no `@` and no `"`, and `rest` holds no `open "` |
| `LogLines.SecondAtSignUserExample` | src/com/data/security/SecurityApplication.java:188-192 | the line `open "alice@corp@host` gives user `alice` |
| `LogLines.PutLineYieldsPath` | src/com/data/security/SecurityApplication.java:193-199 | a line `pre put "p"rest` gives local path `p`, also when `rest` carries further quoted arguments, when `pre` and `rest` hold no line terminator, `p` is non-empty, holds no `"` and does not end in `put `, and `rest` holds no `put "` |
| `LogLines.TwoArgumentPutYieldsLocalPath` | src/com/data/security/SecurityApplication.java:193-199 | the line `put "C:\a.csv" "/in/"` gives local path `C:\a.csv` |
| `LogLines.DirectoryLineYieldsPath` | src/com/data/security/SecurityApplication.java:202-205 | a line `pre New directory is: "p"` gives remote path `p`, when `pre` and `p` hold no line terminator and `p` holds no `"` |
| `LogLines.IsStamp` | src/com/data/security/SecurityApplication.java:107 | defines the 19 characters `\d{4}-\d{2}-\d{2} \d{2}:\d{2}:\d{2}` |
| `LogLines.HasDatePrefix` | src/com/data/security/SecurityApplication.java:336 | defines a line matching the date pattern: a stamp followed by terminator-free text |
| `LogLines.ParseDate` | src/com/data/security/SecurityApplication.java:333-346 | defines the reading of a line: the stamp's calendar reading when the line has the date prefix, the epoch 0 otherwise; its meaning on real lines is stated by the two lemmas below |
| `LogLines.StampedLineReadsStamp` | src/com/data/security/SecurityApplication.java:333-346 | a line made of a stamp followed by terminator-free text reads as that stamp |
| `LogLines.StampedLineExample` | src/com/data/security/SecurityApplication.java:333-346 | the line `2024-01-01 10:00:00 put "C:\x"` reads as `2024-01-01 10:00:00` |
| `LogLines.Classify` | src/com/data/security/SecurityApplication.java:188-207 | defines the event of a line by the ordered `if / else if` chain; characterised by `ClassifyCases` |
| `LogLines.ClassifyCases` | src/com/data/security/SecurityApplication.java:188-207 | the ordered chain: user shape first; an upload iff not a user line, stamp strictly after start and put shape; a directory change iff neither of those and the directory shape; each with its extracted value |
| `LogLines.GatePassedMeansUpload` | src/com/data/security/SecurityApplication.java:193-199 | a line that is not a user line, whose date is after the start time and that yields a local path is an upload of that path |
| `LogLines.StampedPutLineUploads` | src/com/data/security/SecurityApplication.java:193-199 | a put line `stamp pre put "p"rest` whose stamp reads after the start time, and that is not a user line, is an upload of `p` (under the conditions of `PutLineYieldsPath`, with `p` also free of line terminators) |
| `LogLines.UnstampedLineNeverUploads` | src/com/data/security/SecurityApplication.java:193-201 | with a start time after the epoch, a line without a stamp never triggers an evaluation |
| `LogLines.DirectoryLineIgnoresTime` | src/com/data/security/SecurityApplication.java:193-206 | a directory line that is neither a user line nor taken by the put branch sets the remote path, whatever its stamp: stamped after the start without the put shape, or put-shaped but failing the time gate |
| `LogLines.UserLineIsNeverUploadOrDirectory` | src/com/data/security/SecurityApplication.java:188-192 | a user-shaped line only ever sets the user |
| `Application.Apply` | src/com/data/security/SecurityApplication.java:188-207 | defines the session after an event: each event overwrites its own field |
| `Application.Replay` | src/com/data/security/SecurityApplication.java:180-209 | defines the session and the records after the lines in order, one `Apply` and its records per line |
| `Application.ApplyChangesOneField` | src/com/data/security/SecurityApplication.java:188-207 | a line changes at most one session field; an unrecognised line changes none |
| `Application.Evaluate` | src/com/data/security/SecurityApplication.java:351-366 | the record carries the session's user and paths and the time; status is `Data breach` iff the check finds a breach, `Secure` otherwise |
| `Application.ReplayRecordsGrow` | src/com/data/security/SecurityApplication.java:180-209 | one record per upload line; records already produced are never changed by later lines |
| `Application.ReplayStatusesAgreeWithMatcher` | src/com/data/security/SecurityApplication.java:351-366 | every record's status agrees with the breach check on that record's own paths |
| `Application.ReplayUserIsLastOpened` | src/com/data/security/SecurityApplication.java:188-192 | the current user is the user of the last user line, or the starting user when there is none |
| `Application.UnstampedLogHasNoRecords` | src/com/data/security/SecurityApplication.java:333-346 | a log with no stamped lines produces no records |
| `Application.SecurityApplication.constructor` | src/com/data/security/SecurityApplication.java:57-87 | empty table, the three session fields `""`, no operations |
| `Application.SecurityApplication.InsertPair` | src/com/data/security/SecurityApplication.java:287-293 | the key's set gains the value, other keys and the session are unchanged |
| `Application.SecurityApplication.InitializeMappingSheet` | src/com/data/security/SecurityApplication.java:271-299 | the table becomes the old table with the pairs read folded in; the result says whether the read completed |
| `Application.SecurityApplication.ReadRowCells` | src/com/data/security/SecurityApplication.java:284-294 | one row's pairs are folded in; incomplete iff the row has an odd number of cells |
| `Application.SecurityApplication.CheckForDataBreach` | src/com/data/security/SecurityApplication.java:304-324 | the nested prefix loops return true exactly when no (local prefix, remote prefix) pair is permitted; nothing is modified |
| `Application.SecurityApplication.AppendToOperations` | src/com/data/security/SecurityApplication.java:400-409 | the operation's row is appended; nothing else changes |
| `Application.SecurityApplication.HandleFileUpload` | src/com/data/security/SecurityApplication.java:351-369 | exactly one record, the evaluation of the current session, is appended; session and table unchanged |
| `Application.SecurityApplication.Step` | src/com/data/security/SecurityApplication.java:187-207 | the session becomes the classified line applied to it; a record is appended iff the line is an upload; the table is unchanged |
| `Application.SecurityApplication.RunMonitor` | src/com/data/security/SecurityApplication.java:180-209 | after the lines the session and the appended records are those of the replay of the lines |
| `Models.IO.SetTime` | src/com/data/security/models/IO.java:16-22 | `GetTime()` returns the value set; the other four fields are unchanged |
| `Models.IO.SetUser` | src/com/data/security/models/IO.java:24-30 | `GetUser()` returns the value set; the other four fields are unchanged |
| `Models.IO.SetLocalPath` | src/com/data/security/models/IO.java:32-38 | `GetLocalPath()` returns the value set; the other four fields are unchanged |
| `Models.IO.SetRemotePath` | src/com/data/security/models/IO.java:40-46 | `GetRemotePath()` returns the value set; the other four fields are unchanged |
| `Models.IO.SetStatus` | src/com/data/security/models/IO.java:48-54 | `GetStatus()` returns the value set; the other four fields are unchanged |
| `Models.IO.constructor` | src/com/data/security/models/IO.java:8-14 | a fresh record with all five fields at their defaults |

## Left out

- Window setup, the error and info popups and their texts (SecurityApplication.java:125-154, 238-262): user interface. Where a popup reports a failed sheet read, `InitializeMappingSheet` returns `false`.
- Loading `data.properties` from a fixed path (SecurityApplication.java:221-233) and the check that the log path is configured (:173-176): configuration file I/O.
- Opening the workbooks with Apache POI (SecurityApplication.java:273-283) and writing `operations.xlsx` (:376-419): the sheet arrives as the sequence of each row's cell strings, and the operations file is the `operations` sequence of rows. The header row written on creation and the `synchronized` lock are not modelled.
- The monitor thread, `Thread.sleep` polling, `BufferedReader.readLine`, the never-set `exit` flag and the I/O and interruption handlers (SecurityApplication.java:159-186, 210-214): the lines arrive as a finite sequence and `RunMonitor` handles them in order.
- `new Date()` for the start time and for the record time (SecurityApplication.java:171, 358): `startTime` and a clock reading per line are parameters.
- `SimpleDateFormat`'s lenient calendar and time zone (SecurityApplication.java:112, 339): the reading of a stamp is the parameter `stampTime`; a `ParseException`, which falls back to the epoch, is whatever that function returns.
- `main` (SecurityApplication.java:424-442): it builds a record with a hard-coded breach and never calls the check.
- Models.IO.constructor: Java leaves the five fields `null`; the model starts them at `""` and `0`. Every record the application builds sets all five before it is written.
- LogLines.Find: models `Matcher.find` only on lines for which `matches` already held, which is how every call site uses it.
- Models.IO.Row: the operations sheet's time cell is the record time formatted as a `yyyy-MM-dd HH:mm:ss` string, with second resolution (SecurityApplication.java:405); the model's row carries the millisecond `int` itself, because formatting depends on the calendar and time zone left out above.
- Java strings are UTF-16 code units while Dafny's are Unicode scalar values; the separators, keywords and terminators involved are all in the Basic Multilingual Plane, and surrogate pairs are not modelled.
